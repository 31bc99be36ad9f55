/**
 * The bead patterns of the Gale-Church aligner: how many sentences a bead takes
 * from each side, and its penalty in hundredths of a negative log-probability
 * relative to a 1:1 bead.
 */
module BeadCosts {
  import opened Options

  datatype Bead = Bead(di: nat, dj: nat, penalty: int)

  /** The fixed table, in declaration order, which is the order the dictionary
      is iterated in. */
  const Table: seq<Bead> :=
    [Bead(1, 1, 0), Bead(2, 1, 230), Bead(1, 2, 230), Bead(0, 1, 450), Bead(1, 0, 450), Bead(2, 2, 440)]

  /** The dictionary lookup `bs[di, dj]`; None when the key is absent. */
  function Lookup(bs: seq<Bead>, di: int, dj: int): Option<int> {
    if bs == [] then None
    else if bs[0].di == di && bs[0].dj == dj then Some(bs[0].penalty)
    else Lookup(bs[1..], di, dj)
  }

  /** `(di, dj)` is a key of the table `bs`. */
  predicate IsPattern(bs: seq<Bead>, di: int, dj: int) {
    Lookup(bs, di, dj).Some?
  }

  /** Every bead of `bs` takes at least one sentence. */
  predicate Progressing(bs: seq<Bead>) {
    forall k :: 0 <= k < |bs| ==> 0 < bs[k].di + bs[k].dj
  }

  /** No key occurs twice, as in a dictionary. */
  predicate KeysDistinct(bs: seq<Bead>) {
    forall a, b :: 0 <= a < b < |bs| ==> bs[a].di != bs[b].di || bs[a].dj != bs[b].dj
  }

  /** What the search needs of a table: every bead makes progress, the keys are
      distinct, and the one-sided beads (1, 0) and (0, 1) are present, so that
      every cell other than the origin has a predecessor. */
  predicate ValidTable(bs: seq<Bead>) {
    Progressing(bs) && KeysDistinct(bs) && IsPattern(bs, 1, 0) && IsPattern(bs, 0, 1)
  }

  lemma TableValid()
    ensures ValidTable(Table)
  {
  }

  /** The six keys of the fixed table: every pair with both sides at most 2 and
      at least one sentence taken, except the one-sided pairs (2, 0) and (0, 2). */
  lemma PatternShape(di: int, dj: int)
    ensures IsPattern(Table, di, dj) <==>
      0 <= di <= 2 && 0 <= dj <= 2 && 0 < di + dj && (di == 0 || dj == 0 ==> di + dj == 1)
  {
    TableValid();
    if IsPattern(Table, di, dj) {
      var q := LookupFound(Table, di, dj);
    }
    if 0 <= di <= 2 && 0 <= dj <= 2 && 0 < di + dj && (di == 0 || dj == 0 ==> di + dj == 1) {
      var k := if di == 1 && dj == 1 then 0 else if di == 2 && dj == 1 then 1
               else if di == 1 && dj == 2 then 2 else if di == 0 then 3 else if dj == 0 then 4 else 5;
      LookupEntry(Table, k);
    }
  }

  /** In a table with distinct keys each entry is found by its own key. */
  lemma {:induction false} LookupEntry(bs: seq<Bead>, k: nat)
    requires KeysDistinct(bs) && k < |bs|
    ensures Lookup(bs, bs[k].di, bs[k].dj) == Some(bs[k].penalty)
  {
    if k > 0 {
      assert bs[1..][k - 1] == bs[k];
      LookupEntry(bs[1..], k - 1);
    }
  }

  /** A key the lookup finds is the key of entry `q`, whose penalty it returns. */
  lemma {:induction false} LookupFound(bs: seq<Bead>, di: int, dj: int) returns (q: nat)
    requires IsPattern(bs, di, dj)
    ensures q < |bs| && bs[q].di == di && bs[q].dj == dj
    ensures Lookup(bs, di, dj).value == bs[q].penalty
  {
    if bs[0].di == di && bs[0].dj == dj {
      q := 0;
    } else {
      var q' := LookupFound(bs[1..], di, dj);
      q := q' + 1;
    }
  }
}

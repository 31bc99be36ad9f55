/**
 * The Gale-Church dynamic-programming search over two sequences of sentence
 * weights: the table of best prefix costs, the backtrace that reads the chosen
 * beads off it, and the proofs that the result is a valid, optimal alignment.
 *
 * The statistical length cost is a parameter `lc`, applied to the summed
 * weights of the two sides of a candidate bead, so everything below holds for
 * every such cost function. The specification is stated for any bead table
 * satisfying `ValidTable`; the engine itself uses the fixed `Table`.
 */
module Alignment {
  import opened Options
  import opened BeadCosts

  /** The length-plausibility cost of a bead, given the summed weights of its two sides. */
  type LengthCost = (int, int) -> int

  /** One search: the two weight sequences, the length cost and the bead table. */
  datatype Problem = Problem(x: seq<int>, y: seq<int>, lc: LengthCost, beads: seq<Bead>)

  /** A table cell, the tuple `(cost, di, dj)`: the best cost of aligning the two
      prefixes and the pattern of the last bead that achieves it. */
  datatype Cell = Cell(cost: int, di: nat, dj: nat)

  /** A bead as half-open index ranges `((i1, i2), (j1, j2))` into the two sides. */
  datatype Span = Span(i1: nat, i2: nat, j1: nat, j2: nat)

  /** Tuple comparison `a < b` on `(cost, di, dj)`. */
  predicate LexLess(a: Cell, b: Cell) {
    a.cost < b.cost || (a.cost == b.cost && (a.di < b.di || (a.di == b.di && a.dj < b.dj)))
  }

  predicate LexLe(a: Cell, b: Cell) {
    a == b || LexLess(a, b)
  }

  function Sum(s: seq<int>): int {
    if s == [] then 0 else Sum(s[..|s| - 1]) + s[|s| - 1]
  }

  /** `s[::-1]` */
  function Reversed<T>(s: seq<T>): seq<T> {
    seq(|s|, k requires 0 <= k < |s| => s[|s| - 1 - k])
  }

  /** The guard `i - di >= 0 and j - dj >= 0` of the candidate generator. */
  predicate Applies(b: Bead, i: nat, j: nat) {
    i - b.di >= 0 && j - b.dj >= 0
  }

  /** The candidate tuple of bead `b` ending at `(i, j)`, given the cost `prev`
      of the cell it extends. */
  function Candidate(p: Problem, i: nat, j: nat, b: Bead, prev: int): Cell
    requires i <= |p.x| && j <= |p.y| && Applies(b, i, j)
  {
    Cell(prev + p.lc(Sum(p.x[i - b.di..i]), Sum(p.y[j - b.dj..j])) + b.penalty, b.di, b.dj)
  }

  /** The value the table holds at `(i, j)`. */
  ghost function Best(p: Problem, i: nat, j: nat): Cell
    requires ValidTable(p.beads) && i <= |p.x| && j <= |p.y|
    decreases i + j, 2, 0
  {
    if i == 0 && j == 0 then Cell(0, 0, 0)
    else MinOver(p, i, j, p.beads, None).value
  }

  /** Python's `min` over the candidates of the beads `bs`, taken in order,
      starting from the running minimum `acc`. */
  ghost function MinOver(p: Problem, i: nat, j: nat, bs: seq<Bead>, acc: Option<Cell>): (r: Option<Cell>)
    requires ValidTable(p.beads) && i <= |p.x| && j <= |p.y| && Progressing(bs)
    ensures acc.Some? ==> r.Some?
    ensures (j > 0 && IsPattern(bs, 0, 1)) || (i > 0 && IsPattern(bs, 1, 0)) ==> r.Some?
    decreases i + j, 1, |bs|
  {
    if bs == [] then acc
    else MinOver(p, i, j, bs[1..], Step(p, i, j, acc, bs[0]))
  }

  /** One step of `min`: the candidate of `b`, if `b` applies, replaces the running
      minimum only when it is strictly smaller as a tuple. */
  ghost function Step(p: Problem, i: nat, j: nat, acc: Option<Cell>, b: Bead): (r: Option<Cell>)
    requires ValidTable(p.beads) && i <= |p.x| && j <= |p.y| && 0 < b.di + b.dj
    ensures acc.Some? || Applies(b, i, j) ==> r.Some?
    decreases i + j, 0, 0
  {
    if Applies(b, i, j) then
      var c := Candidate(p, i, j, b, Best(p, i - b.di, j - b.dj).cost);
      if acc.None? || LexLess(c, acc.value) then Some(c) else acc
    else acc
  }

  /** The beads the backtrace collects from `(i, j)`, in left-to-right order. */
  ghost function Trace(p: Problem, i: nat, j: nat): seq<Span>
    requires ValidTable(p.beads) && i <= |p.x| && j <= |p.y|
    decreases i + j
  {
    var c := Best(p, i, j);
    if c.di == 0 && c.dj == 0 then []
    else
      BestRecorded(p, i, j);
      Trace(p, i - c.di, j - c.dj) + [Span(i - c.di, i, j - c.dj, j)]
  }

  /** A span whose widths are a key of the table `bs`. */
  predicate IsBead(bs: seq<Bead>, b: Span) {
    b.i1 <= b.i2 && b.j1 <= b.j2 && IsPattern(bs, b.i2 - b.i1, b.j2 - b.j1)
  }

  /** Spans that cut `[0, n)` and `[0, m)` into consecutive beads of `bs`, in order. */
  predicate IsAlignment(bs: seq<Bead>, s: seq<Span>, n: nat, m: nat) {
    && (s == [] ==> n == 0 && m == 0)
    && (s != [] ==> s[0].i1 == 0 && s[0].j1 == 0 && s[|s| - 1].i2 == n && s[|s| - 1].j2 == m)
    && (forall k :: 0 < k < |s| ==> s[k].i1 == s[k - 1].i2 && s[k].j1 == s[k - 1].j2)
    && (forall k :: 0 <= k < |s| ==> IsBead(bs, s[k]))
  }

  /** Every span lies inside sides of lengths `n` and `m`. */
  predicate InRange(s: seq<Span>, n: nat, m: nat) {
    forall k :: 0 <= k < |s| ==> s[k].i1 <= s[k].i2 <= n && s[k].j1 <= s[k].j2 <= m
  }

  /** Beads of `bs` that lie inside sides of lengths `n` and `m`. */
  predicate BeadsWithin(bs: seq<Bead>, s: seq<Span>, n: nat, m: nat) {
    InRange(s, n, m) && forall k :: 0 <= k < |s| ==> IsBead(bs, s[k])
  }

  /** The cost a bead adds: the length cost of its two sides plus its pattern's penalty. */
  ghost function BeadCost(p: Problem, b: Span): int
    requires IsBead(p.beads, b) && b.i2 <= |p.x| && b.j2 <= |p.y|
  {
    p.lc(Sum(p.x[b.i1..b.i2]), Sum(p.y[b.j1..b.j2])) + Lookup(p.beads, b.i2 - b.i1, b.j2 - b.j1).value
  }

  /** The total cost of a bead sequence, summed over its beads. */
  ghost function PathCost(p: Problem, s: seq<Span>): int
    requires BeadsWithin(p.beads, s, |p.x|, |p.y|)
  {
    if s == [] then 0
    else
      assert IsBead(p.beads, s[|s| - 1]);
      PathCost(p, s[..|s| - 1]) + BeadCost(p, s[|s| - 1])
  }

  // ---------------------------------------------------------------------------
  // The engine

  /** Every cell of `t` holds the value the specification gives it. */
  ghost predicate Filled(p: Problem, t: array2<Cell>)
    reads t
  {
    && ValidTable(p.beads)
    && t.Length0 == |p.x| + 1 && t.Length1 == |p.y| + 1
    && forall a, b :: 0 <= a <= |p.x| && 0 <= b <= |p.y| ==> t[a, b] == Best(p, a, b)
  }

  /**
   * `_align`: fills the table, then walks back from `(|x|, |y|)` along the
   * recorded patterns and reverses what it collected. The result is an
   * alignment of the two sides whose total cost is the least of all alignments.
   */
  method AlignWeights(x: seq<int>, y: seq<int>, lc: LengthCost) returns (alignment: seq<Span>)
    ensures alignment == Trace(Problem(x, y, lc, Table), |x|, |y|)
    ensures IsAlignment(Table, alignment, |x|, |y|) && |alignment| <= |x| + |y|
    ensures BeadsWithin(Table, alignment, |x|, |y|)
    ensures PathCost(Problem(x, y, lc, Table), alignment) == Best(Problem(x, y, lc, Table), |x|, |y|).cost
    ensures forall s :: IsAlignment(Table, s, |x|, |y|) ==>
              BeadsWithin(Table, s, |x|, |y|) &&
              PathCost(Problem(x, y, lc, Table), alignment) <= PathCost(Problem(x, y, lc, Table), s)
  {
    var p := Problem(x, y, lc, Table);
    TableValid();
    var t := FillTable(p);
    alignment := Backtrace(p, t);
    TraceIsAlignment(p, |x|, |y|);
    AlignmentWithin(Table, alignment, |x|, |y|);
    TraceCost(p, |x|, |y|);
    forall s | IsAlignment(Table, s, |x|, |y|)
      ensures BeadsWithin(Table, s, |x|, |y|) && PathCost(p, alignment) <= PathCost(p, s)
    {
      BestIsOptimal(p, s, |x|, |y|);
    }
  }

  /** The forward pass: every cell `(i, j)` in row-major order, the base cell
      `(0, 0)` with `(0, 0, 0)`. */
  method FillTable(p: Problem) returns (t: array2<Cell>)
    requires ValidTable(p.beads)
    ensures fresh(t) && Filled(p, t)
  {
    var n, m := |p.x|, |p.y|;
    t := new Cell[n + 1, m + 1];
    for i := 0 to n + 1
      invariant forall a, b :: 0 <= a < i && 0 <= b <= m ==> t[a, b] == Best(p, a, b)
    {
      for j := 0 to m + 1
        invariant forall a, b :: 0 <= a < i && 0 <= b <= m ==> t[a, b] == Best(p, a, b)
        invariant forall b :: 0 <= b < j ==> t[i, b] == Best(p, i, b)
      {
        if i == 0 && j == 0 {
          t[i, j] := Cell(0, 0, 0);
        } else {
          var c := MinCandidate(p, t, i, j);
          t[i, j] := c;
        }
      }
    }
  }

  /**
   * One cell of the forward pass: the minimum, over the applicable beads taken
   * in table order, of the candidate tuples built from cells already filled.
   */
  method MinCandidate(p: Problem, t: array2<Cell>, i: nat, j: nat) returns (c: Cell)
    requires ValidTable(p.beads) && t.Length0 == |p.x| + 1 && t.Length1 == |p.y| + 1
    requires i <= |p.x| && j <= |p.y| && (i != 0 || j != 0)
    requires forall a, b :: 0 <= a <= i && 0 <= b <= j && a + b < i + j ==> t[a, b] == Best(p, a, b)
    ensures c == Best(p, i, j)
  {
    var bs := p.beads;
    var best: Option<Cell> := None;
    for k := 0 to |bs|
      invariant MinOver(p, i, j, bs[k..], best) == MinOver(p, i, j, bs, None)
    {
      var bead := bs[k];
      assert bs[k..][0] == bead && bs[k..][1..] == bs[k + 1..];
      if bead.di <= i && bead.dj <= j {
        var cand := Candidate(p, i, j, bead, t[i - bead.di, j - bead.dj].cost);
        if best.None? || LexLess(cand, best.value) {
          best := Some(cand);
        }
      }
    }
    assert bs[|bs|..] == [];
    c := best.value;
  }

  /** The backward pass: follow the recorded patterns from the end cell until a
      cell with pattern (0, 0), then reverse the collected beads. */
  method Backtrace(p: Problem, t: array2<Cell>) returns (alignment: seq<Span>)
    requires Filled(p, t)
    ensures alignment == Trace(p, |p.x|, |p.y|)
  {
    var n, m := |p.x|, |p.y|;
    var i, j := n, m;
    var collected: seq<Span> := [];
    while true
      invariant 0 <= i <= n && 0 <= j <= m
      invariant Trace(p, n, m) == Trace(p, i, j) + Reversed(collected)
      decreases i + j
    {
      var c := t[i, j];
      if c.di == 0 && c.dj == 0 {
        break;
      }
      BestRecorded(p, i, j);
      ReversedSnoc(collected, Span(i - c.di, i, j - c.dj, j));
      collected := collected + [Span(i - c.di, i, j - c.dj, j)];
      i, j := i - c.di, j - c.dj;
    }
    alignment := Reversed(collected);
  }

  lemma ReversedSnoc<T>(s: seq<T>, e: T)
    ensures Reversed(s + [e]) == [e] + Reversed(s)
  {
  }

  // ---------------------------------------------------------------------------
  // The running minimum

  /** The running minimum never grows. */
  lemma {:induction false} MinOverBelowAcc(p: Problem, i: nat, j: nat, bs: seq<Bead>, acc: Option<Cell>)
    requires ValidTable(p.beads) && i <= |p.x| && j <= |p.y| && Progressing(bs)
    requires acc.Some?
    ensures LexLe(MinOver(p, i, j, bs, acc).value, acc.value)
    decreases |bs|
  {
    if bs != [] {
      var next := Step(p, i, j, acc, bs[0]);
      MinOverBelowAcc(p, i, j, bs[1..], next);
    }
  }

  /** The minimum is no greater, as a tuple, than the candidate of any bead of
      `bs` that applies. */
  lemma {:induction false} MinOverLeast(p: Problem, i: nat, j: nat, bs: seq<Bead>, acc: Option<Cell>, q: nat)
    requires ValidTable(p.beads) && i <= |p.x| && j <= |p.y| && Progressing(bs)
    requires q < |bs| && Applies(bs[q], i, j)
    ensures MinOver(p, i, j, bs, acc).Some?
    ensures LexLe(MinOver(p, i, j, bs, acc).value,
                  Candidate(p, i, j, bs[q], Best(p, i - bs[q].di, j - bs[q].dj).cost))
    decreases |bs|
  {
    var next := Step(p, i, j, acc, bs[0]);
    if q == 0 {
      MinOverBelowAcc(p, i, j, bs[1..], next);
    } else {
      assert bs[1..][q - 1] == bs[q];
      MinOverLeast(p, i, j, bs[1..], next, q - 1);
    }
  }

  /** The minimum is the starting value (`q == |bs|`) or the candidate of `bs[q]`. */
  lemma {:induction false} MinOverChoice(p: Problem, i: nat, j: nat, bs: seq<Bead>, acc: Option<Cell>)
    returns (q: nat)
    requires ValidTable(p.beads) && i <= |p.x| && j <= |p.y| && Progressing(bs)
    ensures q <= |bs|
    ensures q == |bs| ==> MinOver(p, i, j, bs, acc) == acc
    ensures q < |bs| ==>
              && Applies(bs[q], i, j)
              && MinOver(p, i, j, bs, acc) == Some(Candidate(p, i, j, bs[q], Best(p, i - bs[q].di, j - bs[q].dj).cost))
    decreases |bs|
  {
    if bs == [] {
      q := 0;
    } else {
      var next := Step(p, i, j, acc, bs[0]);
      var q' := MinOverChoice(p, i, j, bs[1..], next);
      if q' < |bs| - 1 {
        assert bs[1..][q'] == bs[q' + 1];
        q := q' + 1;
      } else if next == acc {
        q := |bs|;
      } else {
        q := 0;
      }
    }
  }

  // ---------------------------------------------------------------------------
  // The table

  /** Every cell other than `(0, 0)` records a key of the bead table that fits
      inside the prefixes, and its cost is that bead's candidate cost. */
  lemma BestRecorded(p: Problem, i: nat, j: nat)
    requires ValidTable(p.beads) && i <= |p.x| && j <= |p.y| && (i != 0 || j != 0)
    ensures var c := Best(p, i, j);
            && IsPattern(p.beads, c.di, c.dj) && c.di <= i && c.dj <= j && 0 < c.di + c.dj
            && c.cost == Best(p, i - c.di, j - c.dj).cost
                         + p.lc(Sum(p.x[i - c.di..i]), Sum(p.y[j - c.dj..j])) + Lookup(p.beads, c.di, c.dj).value
  {
    var q := MinOverChoice(p, i, j, p.beads, None);
    assert q < |p.beads|;
    var b := p.beads[q];
    assert Best(p, i, j) == Candidate(p, i, j, b, Best(p, i - b.di, j - b.dj).cost);
    LookupEntry(p.beads, q);
    assert Lookup(p.beads, b.di, b.dj) == Some(b.penalty);
  }

  /** The base cell holds cost 0 and pattern (0, 0), and it is the only cell whose
      pattern is (0, 0): the backtrace stops exactly at the origin. */
  lemma BestStops(p: Problem, i: nat, j: nat)
    requires ValidTable(p.beads) && i <= |p.x| && j <= |p.y|
    ensures Best(p, 0, 0) == Cell(0, 0, 0)
    ensures Best(p, i, j).di == 0 && Best(p, i, j).dj == 0 <==> i == 0 && j == 0
  {
    if i != 0 || j != 0 {
      BestRecorded(p, i, j);
    }
  }

  /** Each cell's cost is at most the candidate cost of every applicable bead of
      the table, and an equal-cost candidate is recorded only if no candidate with
      a smaller `(di, dj)` has that cost too. */
  lemma BestIsMinimal(p: Problem, i: nat, j: nat, q: nat)
    requires ValidTable(p.beads) && i <= |p.x| && j <= |p.y| && (i != 0 || j != 0)
    requires q < |p.beads| && Applies(p.beads[q], i, j)
    ensures var c := Best(p, i, j);
            var b := p.beads[q];
            var other := Best(p, i - b.di, j - b.dj).cost + p.lc(Sum(p.x[i - b.di..i]), Sum(p.y[j - b.dj..j])) + b.penalty;
            && c.cost <= other
            && (c.cost == other ==> c.di < b.di || (c.di == b.di && c.dj <= b.dj))
  {
    MinOverLeast(p, i, j, p.beads, None, q);
  }

  /** The table's cost at a bead's end is at most its cost at the bead's start
      plus the bead's own cost. */
  lemma BestStep(p: Problem, b: Span)
    requires ValidTable(p.beads) && IsBead(p.beads, b) && b.i2 <= |p.x| && b.j2 <= |p.y|
    ensures Best(p, b.i2, b.j2).cost <= Best(p, b.i1, b.j1).cost + BeadCost(p, b)
  {
    var q := LookupFound(p.beads, b.i2 - b.i1, b.j2 - b.j1);
    assert b.i2 - p.beads[q].di == b.i1 && b.j2 - p.beads[q].dj == b.j1;
    BestIsMinimal(p, b.i2, b.j2, q);
  }

  // ---------------------------------------------------------------------------
  // Alignments

  /** In an alignment each bead ends no later than any later bead starts. */
  lemma {:induction false} AlignmentOrdered(bs: seq<Bead>, s: seq<Span>, n: nat, m: nat, k1: nat, k2: nat)
    requires IsAlignment(bs, s, n, m) && k1 < k2 < |s|
    ensures s[k1].i2 <= s[k2].i1 && s[k1].j2 <= s[k2].j1
    decreases k2 - k1
  {
    if k1 + 1 < k2 {
      AlignmentOrdered(bs, s, n, m, k1, k2 - 1);
      assert IsBead(bs, s[k2 - 1]);
    }
  }

  lemma AlignmentWithin(bs: seq<Bead>, s: seq<Span>, n: nat, m: nat)
    requires IsAlignment(bs, s, n, m)
    ensures BeadsWithin(bs, s, n, m)
  {
    forall k | 0 <= k < |s|
      ensures IsBead(bs, s[k]) && s[k].i2 <= n && s[k].j2 <= m
    {
      if k < |s| - 1 {
        AlignmentOrdered(bs, s, n, m, k, |s| - 1);
        assert IsBead(bs, s[|s| - 1]);
      }
    }
  }

  /** Dropping the last bead leaves an alignment of the prefixes it starts at. */
  lemma AlignmentPrefix(bs: seq<Bead>, s: seq<Span>, n: nat, m: nat)
    requires IsAlignment(bs, s, n, m) && s != []
    ensures IsAlignment(bs, s[..|s| - 1], s[|s| - 1].i1, s[|s| - 1].j1)
  {
  }

  /** Appending a bead that starts where an alignment ends extends it. */
  lemma AlignmentSnoc(bs: seq<Bead>, s: seq<Span>, b: Span)
    requires IsAlignment(bs, s, b.i1, b.j1) && IsBead(bs, b)
    ensures IsAlignment(bs, s + [b], b.i2, b.j2)
  {
    var t := s + [b];
    forall k | 0 < k < |t|
      ensures t[k].i1 == t[k - 1].i2 && t[k].j1 == t[k - 1].j2
    {
      if k < |s| {
        assert t[k] == s[k] && t[k - 1] == s[k - 1];
      } else {
        assert t[k] == b && t[k - 1] == s[|s| - 1];
      }
    }
    forall k | 0 <= k < |t|
      ensures IsBead(bs, t[k])
    {
      if k < |s| {
        assert t[k] == s[k];
      }
    }
  }

  /** Every index of either side lies in exactly one bead of an alignment. */
  lemma {:induction false} AlignmentCovers(bs: seq<Bead>, s: seq<Span>, n: nat, m: nat, a: nat, b: nat)
    requires IsAlignment(bs, s, n, m)
    ensures a < n ==> exists k :: 0 <= k < |s| && s[k].i1 <= a < s[k].i2
    ensures b < m ==> exists k :: 0 <= k < |s| && s[k].j1 <= b < s[k].j2
    ensures forall k1, k2 :: 0 <= k1 < k2 < |s| ==> !(s[k1].i1 <= a < s[k1].i2 && s[k2].i1 <= a < s[k2].i2)
    ensures forall k1, k2 :: 0 <= k1 < k2 < |s| ==> !(s[k1].j1 <= b < s[k1].j2 && s[k2].j1 <= b < s[k2].j2)
    decreases |s|
  {
    forall k1, k2 | 0 <= k1 < k2 < |s|
      ensures s[k1].i2 <= s[k2].i1 && s[k1].j2 <= s[k2].j1
    {
      AlignmentOrdered(bs, s, n, m, k1, k2);
    }
    if s != [] {
      var last := s[|s| - 1];
      var front := s[..|s| - 1];
      AlignmentPrefix(bs, s, n, m);
      AlignmentCovers(bs, front, last.i1, last.j1, a, b);
      if a < n && a < last.i1 {
        var k :| 0 <= k < |front| && front[k].i1 <= a < front[k].i2;
        assert s[k] == front[k];
      }
      if b < m && b < last.j1 {
        var k :| 0 <= k < |front| && front[k].j1 <= b < front[k].j2;
        assert s[k] == front[k];
      }
    }
  }

  // ---------------------------------------------------------------------------
  // The backtrace

  /** One backtrace step: from a cell other than the origin the backtrace ends
      with the recorded bead, which reaches back to a cell whose cost is this
      cell's cost less the bead's cost. */
  lemma TraceStep(p: Problem, i: nat, j: nat) returns (b: Span)
    requires ValidTable(p.beads) && i <= |p.x| && j <= |p.y| && (i != 0 || j != 0)
    ensures IsBead(p.beads, b) && b.i2 == i && b.j2 == j && b.i1 + b.j1 < i + j
    ensures Trace(p, i, j) == Trace(p, b.i1, b.j1) + [b]
    ensures Best(p, i, j).cost == Best(p, b.i1, b.j1).cost + BeadCost(p, b)
  {
    var c := Best(p, i, j);
    BestRecorded(p, i, j);
    b := Span(i - c.di, i, j - c.dj, j);
  }

  /** The backtrace from `(i, j)` is an alignment of the two prefixes, with at
      most `i + j` beads. */
  lemma {:induction false} TraceIsAlignment(p: Problem, i: nat, j: nat)
    requires ValidTable(p.beads) && i <= |p.x| && j <= |p.y|
    ensures IsAlignment(p.beads, Trace(p, i, j), i, j)
    ensures |Trace(p, i, j)| <= i + j
    decreases i + j
  {
    BestStops(p, i, j);
    if i != 0 || j != 0 {
      var b := TraceStep(p, i, j);
      TraceIsAlignment(p, b.i1, b.j1);
      AlignmentSnoc(p.beads, Trace(p, b.i1, b.j1), b);
    }
  }

  /** The backtrace's beads lie inside the two sides. */
  lemma TraceWithin(p: Problem, i: nat, j: nat)
    requires ValidTable(p.beads) && i <= |p.x| && j <= |p.y|
    ensures BeadsWithin(p.beads, Trace(p, i, j), |p.x|, |p.y|)
  {
    var s := Trace(p, i, j);
    TraceIsAlignment(p, i, j);
    AlignmentWithin(p.beads, s, i, j);
    assert InRange(s, i, j);
  }

  /** The backtrace's beads cost exactly what the table holds at its end cell. */
  lemma {:induction false} TraceCost(p: Problem, i: nat, j: nat)
    requires ValidTable(p.beads) && i <= |p.x| && j <= |p.y|
    ensures BeadsWithin(p.beads, Trace(p, i, j), |p.x|, |p.y|)
    ensures PathCost(p, Trace(p, i, j)) == Best(p, i, j).cost
    decreases i + j
  {
    var s := Trace(p, i, j);
    TraceWithin(p, i, j);
    BestStops(p, i, j);
    if i != 0 || j != 0 {
      var b := TraceStep(p, i, j);
      var rest := Trace(p, b.i1, b.j1);
      TraceCost(p, b.i1, b.j1);
      assert s[..|s| - 1] == rest && s[|s| - 1] == b;
      assert PathCost(p, s) == PathCost(p, rest) + BeadCost(p, b);
    }
  }

  /** Optimality: the table's cost at `(n, m)` is at most the total cost of any
      alignment of the two prefixes built from the table's beads. */
  lemma {:induction false} BestIsOptimal(p: Problem, s: seq<Span>, n: nat, m: nat)
    requires ValidTable(p.beads) && n <= |p.x| && m <= |p.y| && IsAlignment(p.beads, s, n, m)
    ensures BeadsWithin(p.beads, s, |p.x|, |p.y|)
    ensures Best(p, n, m).cost <= PathCost(p, s)
    decreases |s|
  {
    AlignmentWithin(p.beads, s, n, m);
    if s != [] {
      var b := s[|s| - 1];
      var front := s[..|s| - 1];
      AlignmentPrefix(p.beads, s, n, m);
      BestIsOptimal(p, front, b.i1, b.j1);
      assert IsBead(p.beads, b);
      BestStep(p, b);
      assert PathCost(p, s) == PathCost(p, front) + BeadCost(p, b);
    }
  }

  /** The backtrace from the end cell costs no more than any other alignment. */
  lemma TraceIsOptimal(p: Problem, s: seq<Span>)
    requires ValidTable(p.beads) && IsAlignment(p.beads, s, |p.x|, |p.y|)
    ensures BeadsWithin(p.beads, s, |p.x|, |p.y|) && BeadsWithin(p.beads, Trace(p, |p.x|, |p.y|), |p.x|, |p.y|)
    ensures PathCost(p, Trace(p, |p.x|, |p.y|)) <= PathCost(p, s)
  {
    TraceCost(p, |p.x|, |p.y|);
    BestIsOptimal(p, s, |p.x|, |p.y|);
  }
}

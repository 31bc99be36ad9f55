/**
 * From sentences to weights and from aligned spans back to text: the character
 * length the aligner weighs each sentence by, the single-space join of the
 * sentences inside a bead, and `align`, which pairs the joined text of the two
 * sides bead by bead.
 */
module Sentences {
  import opened BeadCosts
  import opened Alignment
  import Blocks

  /** `char_length`: the number of characters of `s` other than the space ' '. */
  function CharLength(s: string): (n: nat)
    ensures n <= |s|
  {
    if s == [] then 0
    else CharLength(s[..|s| - 1]) + (if s[|s| - 1] == ' ' then 0 else 1)
  }

  /** The character length is the length less the number of spaces, so it equals
      the length exactly when the sentence holds no space. */
  lemma {:induction false} CharLengthCounts(s: string)
    ensures CharLength(s) == |s| - multiset(s)[' ']
    ensures CharLength(s) == |s| <==> ' ' !in s
  {
    if s != [] {
      var front := s[..|s| - 1];
      CharLengthCounts(front);
      assert s == front + [s[|s| - 1]];
      assert multiset(s) == multiset(front) + multiset{s[|s| - 1]};
    }
  }

  lemma {:induction false} CharLengthAppend(a: string, b: string)
    ensures CharLength(a + b) == CharLength(a) + CharLength(b)
    decreases |b|
  {
    if b == [] {
      assert a + b == a;
    } else {
      assert (a + b)[..|a + b| - 1] == a + b[..|b| - 1];
      assert (a + b)[|a + b| - 1] == b[|b| - 1];
      CharLengthAppend(a, b[..|b| - 1]);
    }
  }

  /** A sentence holding a character other than ' ' weighs at least 1. */
  lemma {:induction false} CharLengthPositive(s: string, q: nat)
    requires q < |s| && s[q] != ' '
    ensures CharLength(s) >= 1
    decreases |s|
  {
    if q < |s| - 1 {
      CharLengthPositive(s[..|s| - 1], q);
    }
  }

  /** Every sentence `read_blocks` stores holds a non-whitespace character, so it
      weighs at least 1: no bead over such sentences has two sides of weight 0. */
  lemma BlockSentencesWeigh(lines: seq<string>)
    ensures forall b, k :: 0 <= b < |Blocks.BlocksOf(lines)| && 0 <= k < |Blocks.BlocksOf(lines)[b]| ==>
              CharLength(Blocks.BlocksOf(lines)[b][k]) >= 1
  {
    Blocks.BlocksShape(lines);
    forall b, k | 0 <= b < |Blocks.BlocksOf(lines)| && 0 <= k < |Blocks.BlocksOf(lines)[b]|
      ensures CharLength(Blocks.BlocksOf(lines)[b][k]) >= 1
    {
      var line := Blocks.BlocksOf(lines)[b][k];
      Blocks.StripBlank(line);
      var q :| 0 <= q < |line| && !Blocks.IsSpace(line[q]);
      CharLengthPositive(line, q);
    }
  }

  /** `' '.join(ss)` */
  function Join(ss: seq<string>): string {
    if ss == [] then ""
    else if |ss| == 1 then ss[0]
    else Join(ss[..|ss| - 1]) + " " + ss[|ss| - 1]
  }

  /** `list(map(char_length, ss))`: the weight of each sentence. */
  function Weights(ss: seq<string>): (w: seq<int>)
    ensures |w| == |ss|
  {
    seq(|ss|, k requires 0 <= k < |ss| => CharLength(ss[k]))
  }

  /** Joining adds only spaces, so the joined text weighs what its sentences
      weigh together: the length cost of a bead sees the character length of
      the text `align` prints for it. */
  lemma {:induction false} JoinWeight(ss: seq<string>)
    ensures CharLength(Join(ss)) == Sum(Weights(ss))
    ensures |Join(ss)| == (if ss == [] then 0 else |ss| - 1) + Sum(Lengths(ss))
  {
    if |ss| > 1 {
      var front := ss[..|ss| - 1];
      JoinWeight(front);
      CharLengthAppend(Join(front), " ");
      CharLengthAppend(Join(front) + " ", ss[|ss| - 1]);
      assert Weights(ss)[..|ss| - 1] == Weights(front);
      assert Lengths(ss)[..|ss| - 1] == Lengths(front);
    } else if |ss| == 1 {
      assert Weights(ss)[..0] == [] && Lengths(ss)[..0] == [];
    }
  }

  function Lengths(ss: seq<string>): (w: seq<int>)
    ensures |w| == |ss|
  {
    seq(|ss|, k requires 0 <= k < |ss| => |ss[k]|)
  }

  /** The pair of texts a bead stands for. */
  function PairOf(sx: seq<string>, sy: seq<string>, b: Span): (string, string)
    requires b.i1 <= b.i2 <= |sx| && b.j1 <= b.j2 <= |sy|
  {
    (Join(sx[b.i1..b.i2]), Join(sy[b.j1..b.j2]))
  }

  /** The spans the aligner chooses for two groups of sentences. */
  ghost function Spans(sx: seq<string>, sy: seq<string>, lc: LengthCost): seq<Span> {
    TableValid();
    Trace(Problem(Weights(sx), Weights(sy), lc, Table), |sx|, |sy|)
  }

  /** The sentences of one side, bead by bead, concatenated. */
  function LeftSides<T>(xs: seq<T>, s: seq<Span>): seq<T>
    requires forall k :: 0 <= k < |s| ==> s[k].i1 <= s[k].i2 <= |xs|
  {
    if s == [] then [] else LeftSides(xs, s[..|s| - 1]) + xs[s[|s| - 1].i1..s[|s| - 1].i2]
  }

  function RightSides<T>(ys: seq<T>, s: seq<Span>): seq<T>
    requires forall k :: 0 <= k < |s| ==> s[k].j1 <= s[k].j2 <= |ys|
  {
    if s == [] then [] else RightSides(ys, s[..|s| - 1]) + ys[s[|s| - 1].j1..s[|s| - 1].j2]
  }

  /** An alignment uses every sentence of each side exactly once and in order:
      reading its beads left to right gives back both sides. */
  lemma {:induction false} AlignmentPartitions<T>(bs: seq<Bead>, s: seq<Span>, xs: seq<T>, ys: seq<T>)
    requires IsAlignment(bs, s, |xs|, |ys|)
    ensures InRange(s, |xs|, |ys|)
    ensures LeftSides(xs, s) == xs && RightSides(ys, s) == ys
    decreases |s|
  {
    AlignmentWithin(bs, s, |xs|, |ys|);
    if s != [] {
      var b := s[|s| - 1];
      var front := s[..|s| - 1];
      AlignmentPrefix(bs, s, |xs|, |ys|);
      AlignmentPartitions(bs, front, xs[..b.i1], ys[..b.j1]);
      SidesPrefix(xs, ys, front, b.i1, b.j1);
      assert xs[..b.i1] + xs[b.i1..b.i2] == xs;
      assert ys[..b.j1] + ys[b.j1..b.j2] == ys;
    }
  }

  /** The sides of beads lying inside a prefix are read the same from the prefix. */
  lemma {:induction false} SidesPrefix<T>(xs: seq<T>, ys: seq<T>, s: seq<Span>, n: nat, m: nat)
    requires n <= |xs| && m <= |ys|
    requires forall k :: 0 <= k < |s| ==> s[k].i1 <= s[k].i2 <= n && s[k].j1 <= s[k].j2 <= m
    ensures LeftSides(xs[..n], s) == LeftSides(xs, s) && RightSides(ys[..m], s) == RightSides(ys, s)
    decreases |s|
  {
    if s != [] {
      var b := s[|s| - 1];
      SidesPrefix(xs, ys, s[..|s| - 1], n, m);
      assert xs[..n][b.i1..b.i2] == xs[b.i1..b.i2];
      assert ys[..m][b.j1..b.j2] == ys[b.j1..b.j2];
    }
  }

  /** The texts of each bead of `spans`, in bead order; against a side with no
      sentences every text on that side is empty. */
  function PairsOf(sx: seq<string>, sy: seq<string>, spans: seq<Span>): (pairs: seq<(string, string)>)
    requires InRange(spans, |sx|, |sy|)
    ensures |pairs| == |spans|
    ensures forall k :: 0 <= k < |pairs| ==> pairs[k] == PairOf(sx, sy, spans[k])
    ensures sx == [] ==> forall k :: 0 <= k < |pairs| ==> pairs[k].0 == ""
    ensures sy == [] ==> forall k :: 0 <= k < |pairs| ==> pairs[k].1 == ""
  {
    var pairs := seq(|spans|, k requires 0 <= k < |spans| => PairOf(sx, sy, spans[k]));
    assert forall k :: 0 <= k < |pairs| ==> pairs[k] == PairOf(sx, sy, spans[k]);
    assert sx == [] ==> forall k :: 0 <= k < |spans| ==> sx[spans[k].i1..spans[k].i2] == [];
    assert sy == [] ==> forall k :: 0 <= k < |spans| ==> sy[spans[k].j1..spans[k].j2] == [];
    pairs
  }

  /**
   * `align`: weighs each sentence by its character length, aligns the weights,
   * and yields for each bead, in order, the joined sentences of its two sides.
   * The beads partition both sides, so every sentence is printed exactly once.
   */
  method Align(sx: seq<string>, sy: seq<string>, lc: LengthCost) returns (pairs: seq<(string, string)>)
    ensures IsAlignment(Table, Spans(sx, sy, lc), |sx|, |sy|)
    ensures InRange(Spans(sx, sy, lc), |sx|, |sy|)
    ensures pairs == PairsOf(sx, sy, Spans(sx, sy, lc))
    ensures LeftSides(sx, Spans(sx, sy, lc)) == sx && RightSides(sy, Spans(sx, sy, lc)) == sy
    ensures |pairs| <= |sx| + |sy|
    ensures sx == [] && sy == [] ==> pairs == []
  {
    var cx := Weights(sx);
    var cy := Weights(sy);
    var spans := AlignWeights(cx, cy, lc);
    assert spans == Spans(sx, sy, lc);
    AlignmentPartitions(Table, spans, sx, sy);
    pairs := PairsOf(sx, sy, spans);
  }
}

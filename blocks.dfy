/**
 * Splitting a text file, given as its sequence of lines, into blocks of
 * sentences: a line holding only whitespace ends the current block, and every
 * other line joins it with surrounding whitespace removed.
 */
module Blocks {

  /** The characters Python's `str.strip()` removes: `str.isspace()` holds exactly
      for these. */
  predicate IsSpace(c: char) {
    || ('\t' <= c <= '\r')
    || ('\U{001C}' <= c <= ' ')
    || c == '\U{0085}' || c == '\U{00A0}' || c == '\U{1680}'
    || ('\U{2000}' <= c <= '\U{200A}')
    || c == '\U{2028}' || c == '\U{2029}' || c == '\U{202F}' || c == '\U{205F}' || c == '\U{3000}'
  }

  function TrimLeft(s: string): string {
    if s != [] && IsSpace(s[0]) then TrimLeft(s[1..]) else s
  }

  function TrimRight(s: string): string {
    if s != [] && IsSpace(s[|s| - 1]) then TrimRight(s[..|s| - 1]) else s
  }

  /** `s.strip()` */
  function Strip(s: string): string {
    TrimRight(TrimLeft(s))
  }

  lemma {:induction false} TrimLeftCut(s: string) returns (lo: nat)
    ensures lo <= |s| && TrimLeft(s) == s[lo..]
    ensures forall k :: 0 <= k < lo ==> IsSpace(s[k])
    ensures lo < |s| ==> !IsSpace(s[lo])
  {
    if s != [] && IsSpace(s[0]) {
      var lo' := TrimLeftCut(s[1..]);
      lo := lo' + 1;
      assert s[1..][lo'..] == s[lo..];
      forall k | 0 <= k < lo
        ensures IsSpace(s[k])
      {
        if k > 0 {
          assert s[1..][k - 1] == s[k];
        }
      }
    } else {
      lo := 0;
    }
  }

  lemma {:induction false} TrimRightCut(s: string) returns (hi: nat)
    ensures hi <= |s| && TrimRight(s) == s[..hi]
    ensures forall k :: hi <= k < |s| ==> IsSpace(s[k])
    ensures 0 < hi ==> !IsSpace(s[hi - 1])
  {
    if s != [] && IsSpace(s[|s| - 1]) {
      hi := TrimRightCut(s[..|s| - 1]);
      assert s[..|s| - 1][..hi] == s[..hi];
    } else {
      hi := |s|;
    }
  }

  /** `strip` keeps the slice `s[lo:hi]` between the leading and the trailing
      whitespace; what it keeps neither starts nor ends with whitespace. */
  lemma StripCut(s: string) returns (lo: nat, hi: nat)
    ensures lo <= hi <= |s| && Strip(s) == s[lo..hi]
    ensures forall k :: 0 <= k < lo || hi <= k < |s| ==> IsSpace(s[k])
    ensures lo < hi ==> !IsSpace(s[lo]) && !IsSpace(s[hi - 1])
  {
    lo := TrimLeftCut(s);
    var h := TrimRightCut(s[lo..]);
    hi := lo + h;
    assert s[lo..][..h] == s[lo..hi];
    forall k | hi <= k < |s|
      ensures IsSpace(s[k])
    {
      assert s[lo..][k - lo] == s[k];
    }
    if lo < hi {
      assert s[lo..][h - 1] == s[hi - 1];
    }
  }

  /** A line is blank, `not line.strip()`, exactly when all its characters are whitespace. */
  lemma StripBlank(s: string)
    ensures Strip(s) == [] <==> forall k :: 0 <= k < |s| ==> IsSpace(s[k])
  {
    var lo, hi := StripCut(s);
    if lo < hi {
      assert !IsSpace(s[lo]);
    }
  }

  /** Stripping twice strips nothing more. */
  lemma StripIdempotent(s: string)
    ensures Strip(Strip(s)) == Strip(s)
  {
    var lo, hi := StripCut(s);
    var t := s[lo..hi];
    var lo', hi' := StripCut(t);
    if t != [] {
      assert t[0] == s[lo] && t[|t| - 1] == s[hi - 1];
    }
  }

  predicate Blank(line: string) {
    Strip(line) == []
  }

  /** The blocks the lines fall into when every blank line closes one: always one
      more than there are blank lines, the last one still open. */
  function Segments(lines: seq<string>): (r: seq<seq<string>>)
    ensures |r| == CountBlank(lines) + 1
  {
    if lines == [] then [[]]
    else
      var front := Segments(lines[..|lines| - 1]);
      var line := lines[|lines| - 1];
      if Blank(line) then front + [[]]
      else front[..|front| - 1] + [front[|front| - 1] + [Strip(line)]]
  }

  function CountBlank(lines: seq<string>): nat {
    if lines == [] then 0
    else CountBlank(lines[..|lines| - 1]) + (if Blank(lines[|lines| - 1]) then 1 else 0)
  }

  /** What `read_blocks` yields: every closed block, then the open one if it is not empty. */
  function BlocksOf(lines: seq<string>): (r: seq<seq<string>>) {
    var s := Segments(lines);
    if s[|s| - 1] == [] then s[..|s| - 1] else s
  }

  /** The stripped non-blank lines, in order. */
  function Kept(lines: seq<string>): seq<string> {
    if lines == [] then []
    else Kept(lines[..|lines| - 1]) + (if Blank(lines[|lines| - 1]) then [] else [Strip(lines[|lines| - 1])])
  }

  function Flatten<T>(ss: seq<seq<T>>): seq<T> {
    if ss == [] then [] else Flatten(ss[..|ss| - 1]) + ss[|ss| - 1]
  }

  lemma {:induction false} FlattenAppend<T>(a: seq<seq<T>>, b: seq<seq<T>>)
    ensures Flatten(a + b) == Flatten(a) + Flatten(b)
    decreases |b|
  {
    if b == [] {
      assert a + b == a;
    } else {
      var front, last := b[..|b| - 1], b[|b| - 1];
      assert (a + b)[..|a + b| - 1] == a + front && (a + b)[|a + b| - 1] == last;
      FlattenAppend(a, front);
      assert Flatten(a + b) == Flatten(a + front) + last;
      assert Flatten(b) == Flatten(front) + last;
    }
  }

  /** No line is lost, none is invented and the order is kept: the blocks read
      one after another are exactly the stripped non-blank lines. */
  lemma {:induction false} SegmentsFlatten(lines: seq<string>)
    ensures Flatten(Segments(lines)) == Kept(lines)
  {
    if lines != [] {
      var init := lines[..|lines| - 1];
      var front := Segments(init);
      SegmentsFlatten(init);
      var line := lines[|lines| - 1];
      if Blank(line) {
        FlattenAppend(front, [[]]);
        var none: seq<seq<string>> := [[]];
        assert Flatten(none) == [];
      } else {
        var last := front[|front| - 1];
        assert front == front[..|front| - 1] + [last];
        FlattenAppend(front[..|front| - 1], [last]);
        FlattenAppend(front[..|front| - 1], [last + [Strip(line)]]);
        assert Flatten([last]) == last;
        assert Flatten([last + [Strip(line)]]) == last + [Strip(line)];
      }
    }
  }

  lemma BlocksFlatten(lines: seq<string>)
    ensures Flatten(BlocksOf(lines)) == Kept(lines)
  {
    SegmentsFlatten(lines);
    var s := Segments(lines);
    if s[|s| - 1] == [] {
      assert s == s[..|s| - 1] + [s[|s| - 1]];
      FlattenAppend(s[..|s| - 1], [s[|s| - 1]]);
      assert Flatten([s[|s| - 1]]) == [];
    }
  }

  /** Every line inside a block is non-blank and already stripped. */
  lemma {:induction false} SegmentsStripped(lines: seq<string>)
    ensures forall b, k :: 0 <= b < |Segments(lines)| && 0 <= k < |Segments(lines)[b]| ==>
              !Blank(Segments(lines)[b][k]) && Strip(Segments(lines)[b][k]) == Segments(lines)[b][k]
  {
    if lines != [] {
      var init := lines[..|lines| - 1];
      SegmentsStripped(init);
      var line := lines[|lines| - 1];
      if !Blank(line) {
        StripIdempotent(line);
      }
    }
  }

  /** A slice inside a prefix is the same slice of the whole sequence. */
  lemma SliceOfPrefix<T>(s: seq<T>, n: nat, lo: nat, hi: nat)
    requires lo <= hi <= n <= |s|
    ensures s[..n][lo..hi] == s[lo..hi]
  {
  }

  /** A non-empty suffix is the suffix of the sequence without its last element,
      followed by that element. */
  lemma SuffixSnoc<T>(s: seq<T>, lo: nat)
    requires lo < |s|
    ensures s[lo..|s|] == s[..|s| - 1][lo..|s| - 1] + [s[|s| - 1]]
  {
  }

  /** The indices of the blank lines, in increasing order: every blank line is
      listed, and nothing else is. */
  function BlankIndices(lines: seq<string>): (r: seq<nat>)
    ensures |r| == CountBlank(lines)
    ensures forall k :: 0 <= k < |r| ==> r[k] < |lines| && Blank(lines[r[k]])
    ensures forall a, b :: 0 <= a < b < |r| ==> r[a] < r[b]
    ensures forall q :: 0 <= q < |lines| && Blank(lines[q]) ==> q in r
  {
    if lines == [] then []
    else BlankIndices(lines[..|lines| - 1]) + (if Blank(lines[|lines| - 1]) then [|lines| - 1] else [])
  }

  /** Where block `k` starts: at the first line, or just after the `k`-th blank line. */
  function BlockStart(bl: seq<nat>, k: nat): nat
    requires k <= |bl|
  {
    if k == 0 then 0 else bl[k - 1] + 1
  }

  /** Where block `k` ends: at the blank line that closes it, or at the end of the file. */
  function BlockEnd(bl: seq<nat>, n: nat, k: nat): nat
    requires k <= |bl|
  {
    if k == |bl| then n else bl[k]
  }

  /** Block `k` holds the stripped non-blank lines between the blank line that
      opens it (or the first line) and the blank line that closes it (or the end). */
  lemma {:induction false} SegmentsBetween(lines: seq<string>, k: nat)
    requires k <= CountBlank(lines)
    ensures var bl := BlankIndices(lines);
            && BlockStart(bl, k) <= BlockEnd(bl, |lines|, k) <= |lines|
            && Segments(lines)[k] == Kept(lines[BlockStart(bl, k)..BlockEnd(bl, |lines|, k)])
    decreases |lines|
  {
    if lines != [] {
      var init := lines[..|lines| - 1];
      if k <= CountBlank(init) {
        SegmentsBetween(init, k);
      }
      if Blank(lines[|lines| - 1]) {
        SegmentsBetweenBlank(lines, k);
      } else if k < CountBlank(lines) {
        SegmentsBetweenLine(lines, k);
      } else {
        SegmentsBetweenOpen(lines);
      }
    }
  }

  /** The step of `SegmentsBetween` for a last line that is blank. */
  lemma SegmentsBetweenBlank(lines: seq<string>, k: nat)
    requires lines != [] && Blank(lines[|lines| - 1]) && k <= CountBlank(lines)
    requires var init := lines[..|lines| - 1];
             var bl0 := BlankIndices(init);
             k <= |bl0| ==>
               && BlockStart(bl0, k) <= BlockEnd(bl0, |init|, k) <= |init|
               && Segments(init)[k] == Kept(init[BlockStart(bl0, k)..BlockEnd(bl0, |init|, k)])
    ensures var bl := BlankIndices(lines);
            && BlockStart(bl, k) <= BlockEnd(bl, |lines|, k) <= |lines|
            && Segments(lines)[k] == Kept(lines[BlockStart(bl, k)..BlockEnd(bl, |lines|, k)])
  {
    var init := lines[..|lines| - 1];
    var bl0 := BlankIndices(init);
    var bl := BlankIndices(lines);
    assert bl == bl0 + [|init|];
    assert Segments(lines) == Segments(init) + [[]];
    if k <= |bl0| {
      var lo, hi := BlockStart(bl0, k), BlockEnd(bl0, |init|, k);
      assert BlockStart(bl, k) == lo && BlockEnd(bl, |lines|, k) == hi;
      SliceOfPrefix(lines, |lines| - 1, lo, hi);
    } else {
      assert BlockStart(bl, k) == |lines|;
    }
  }

  /** The step of `SegmentsBetween` for a last line that is not blank, and a
      block that an earlier blank line closes. */
  lemma SegmentsBetweenLine(lines: seq<string>, k: nat)
    requires lines != [] && !Blank(lines[|lines| - 1]) && k < CountBlank(lines)
    requires var init := lines[..|lines| - 1];
             var bl0 := BlankIndices(init);
             k <= |bl0| ==>
               && BlockStart(bl0, k) <= BlockEnd(bl0, |init|, k) <= |init|
               && Segments(init)[k] == Kept(init[BlockStart(bl0, k)..BlockEnd(bl0, |init|, k)])
    ensures var bl := BlankIndices(lines);
            && BlockStart(bl, k) <= BlockEnd(bl, |lines|, k) <= |lines|
            && Segments(lines)[k] == Kept(lines[BlockStart(bl, k)..BlockEnd(bl, |lines|, k)])
  {
    var init := lines[..|lines| - 1];
    var bl0 := BlankIndices(init);
    var front := Segments(init);
    var bl := BlankIndices(lines);
    assert bl == bl0;
    assert Segments(lines)[k] == front[k];
    var lo, hi := BlockStart(bl0, k), BlockEnd(bl0, |init|, k);
    assert BlockStart(bl, k) == lo && BlockEnd(bl, |lines|, k) == hi;
    SliceOfPrefix(lines, |lines| - 1, lo, hi);
    assert Segments(lines)[k] == Kept(lines[lo..hi]);
  }

  /** The step of `SegmentsBetween` for a last line that is not blank, and the
      block it joins. */
  lemma SegmentsBetweenOpen(lines: seq<string>)
    requires lines != [] && !Blank(lines[|lines| - 1])
    requires var init := lines[..|lines| - 1];
             var bl0 := BlankIndices(init);
             && BlockStart(bl0, |bl0|) <= |init|
             && Segments(init)[|bl0|] == Kept(init[BlockStart(bl0, |bl0|)..BlockEnd(bl0, |init|, |bl0|)])
    ensures var bl := BlankIndices(lines);
            && BlockStart(bl, |bl|) <= |lines|
            && Segments(lines)[|bl|] == Kept(lines[BlockStart(bl, |bl|)..BlockEnd(bl, |lines|, |bl|)])
  {
    var init := lines[..|lines| - 1];
    var line := lines[|lines| - 1];
    var bl0 := BlankIndices(init);
    var front := Segments(init);
    var lo := BlockStart(bl0, |bl0|);
    var bl := BlankIndices(lines);
    assert bl == bl0;
    assert BlockStart(bl, |bl|) == lo && BlockEnd(bl, |lines|, |bl|) == |lines|;
    assert Segments(lines)[|bl0|] == front[|bl0|] + [Strip(line)];
    SuffixSnoc(lines, lo);
    KeptSnoc(init[lo..|init|], line);
    assert Segments(lines)[|bl|] == Kept(lines[lo..|lines|]);
  }

  /** A non-blank line read after `init` is kept, stripped, after what `init` keeps. */
  lemma KeptSnoc(init: seq<string>, line: string)
    requires !Blank(line)
    ensures Kept(init + [line]) == Kept(init) + [Strip(line)]
  {
    assert (init + [line])[..|init|] == init;
  }

  /** The block still open after the last blank line holds the lines that follow
      it, and it is non-empty exactly when such lines exist. */
  lemma LastSegment(lines: seq<string>)
    ensures var bl := BlankIndices(lines);
            && BlockStart(bl, |bl|) <= |lines|
            && Segments(lines)[|bl|] == Kept(lines[BlockStart(bl, |bl|)..])
            && (Segments(lines)[|bl|] == [] <==> BlockStart(bl, |bl|) == |lines|)
  {
    var bl := BlankIndices(lines);
    var c := |bl|;
    SegmentsBetween(lines, c);
    var lo := BlockStart(bl, c);
    assert lines[lo..] == lines[lo..|lines|];
    if lo < |lines| {
      var last := |lines| - 1;
      var t := lines[lo..];
      assert t[|t| - 1] == lines[last];
    }
  }

  /** One block for every blank line, empty or not, and one more for the lines
      after the last blank line exactly when there are such lines; block `k` holds
      the stripped non-blank lines between its bounding blank lines, and every
      stored line is stripped and non-blank. */
  lemma BlocksShape(lines: seq<string>)
    ensures var bl := BlankIndices(lines);
            |BlocksOf(lines)| == |bl| + (if BlockStart(bl, |bl|) == |lines| then 0 else 1)
    ensures forall k :: 0 <= k < |BlocksOf(lines)| ==>
              && BlocksOf(lines)[k] == Segments(lines)[k]
              && BlockStart(BlankIndices(lines), k) <= BlockEnd(BlankIndices(lines), |lines|, k) <= |lines|
              && BlocksOf(lines)[k] == Kept(lines[BlockStart(BlankIndices(lines), k)..BlockEnd(BlankIndices(lines), |lines|, k)])
    ensures CountBlank(lines) < |BlocksOf(lines)| ==> BlocksOf(lines)[CountBlank(lines)] != []
    ensures forall b, k :: 0 <= b < |BlocksOf(lines)| && 0 <= k < |BlocksOf(lines)[b]| ==>
              !Blank(BlocksOf(lines)[b][k]) && Strip(BlocksOf(lines)[b][k]) == BlocksOf(lines)[b][k]
  {
    LastSegment(lines);
    SegmentsStripped(lines);
    forall k | 0 <= k < |BlocksOf(lines)|
      ensures BlocksOf(lines)[k] == Segments(lines)[k]
      ensures BlockStart(BlankIndices(lines), k) <= BlockEnd(BlankIndices(lines), |lines|, k) <= |lines|
      ensures BlocksOf(lines)[k] == Kept(lines[BlockStart(BlankIndices(lines), k)..BlockEnd(BlankIndices(lines), |lines|, k)])
    {
      SegmentsBetween(lines, k);
    }
  }

  /**
   * `read_blocks`: gathers stripped lines into the current block, and at each
   * blank line yields the block, empty or not, and starts a new one; at the end
   * the current block is yielded only if it holds a line.
   */
  method ReadBlocks(lines: seq<string>) returns (blocks: seq<seq<string>>)
    ensures blocks == BlocksOf(lines)
    ensures Flatten(blocks) == Kept(lines)
  {
    blocks := [];
    var block: seq<string> := [];
    for k := 0 to |lines|
      invariant Segments(lines[..k]) == blocks + [block]
    {
      var line := lines[k];
      assert lines[..k + 1][..k] == lines[..k];
      if Blank(line) {
        blocks := blocks + [block];
        block := [];
      } else {
        block := block + [Strip(line)];
      }
    }
    assert lines[..|lines|] == lines;
    if block != [] {
      blocks := blocks + [block];
    }
    BlocksFlatten(lines);
  }
}

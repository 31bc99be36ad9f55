/**
 * Zipf's-law analysis of a token stream: the word-frequency dictionary, kept
 * in insertion order as a dictionary is, and the rank table of its 25 most
 * frequent words with the product of each word's frequency and rank.
 */
module ZipfsLaw {

  /** One dictionary entry: a word and how often it occurs. */
  datatype Entry = Entry(word: string, freq: nat)

  /** One row of the analysis: `Rank`, `Word`, `Frequency` and `f*r`. */
  datatype Row = Row(rank: nat, word: string, freq: nat, product: nat)

  /** The number of rows the analysis keeps. */
  const TopN: nat := 25

  // ---------------------------------------------------------------------------
  // The frequency dictionary

  /** The keys of a dictionary, in its order. */
  function Words(es: seq<Entry>): (r: seq<string>)
    ensures |r| == |es| && forall k :: 0 <= k < |es| ==> r[k] == es[k].word
  {
    if es == [] then [] else [es[0].word] + Words(es[1..])
  }

  predicate Distinct(s: seq<string>) {
    forall a, b :: 0 <= a < b < |s| ==> s[a] != s[b]
  }

  lemma DistinctCons(x: string, s: seq<string>)
    ensures Distinct([x] + s) <==> x !in s && Distinct(s)
  {
    var t := [x] + s;
    assert forall k :: 0 <= k < |s| ==> t[k + 1] == s[k];
    if x in s {
      var k :| 0 <= k < |s| && s[k] == x;
      assert t[0] == t[k + 1];
    }
    if x !in s && Distinct(s) {
      forall a, b | 0 <= a < b < |t|
        ensures t[a] != t[b]
      {
        if a > 0 {
          assert t[a] == s[a - 1] && t[b] == s[b - 1];
        }
      }
    }
  }

  lemma DistinctSnoc(s: seq<string>, x: string)
    ensures Distinct(s + [x]) <==> x !in s && Distinct(s)
  {
    var t := s + [x];
    assert forall k :: 0 <= k < |s| ==> t[k] == s[k];
    if !(x !in s) {
      var k :| 0 <= k < |s| && s[k] == x;
      assert t[k] == t[|s|];
    }
  }

  /** `d.get(w, 0)` */
  function FreqOf(es: seq<Entry>, w: string): nat {
    if es == [] then 0
    else if es[0].word == w then es[0].freq
    else FreqOf(es[1..], w)
  }

  /** `d[w] += 1`, adding `w` with count 1 at the end when it is not yet a key. */
  function Bump(es: seq<Entry>, w: string): seq<Entry> {
    if es == [] then [Entry(w, 1)]
    else if es[0].word == w then [Entry(w, es[0].freq + 1)] + es[1..]
    else [es[0]] + Bump(es[1..], w)
  }

  /** `Counter(tokens)`: the tokens counted one after another. */
  function Frequencies(tokens: seq<string>): seq<Entry> {
    if tokens == [] then []
    else Bump(Frequencies(tokens[..|tokens| - 1]), tokens[|tokens| - 1])
  }

  /** The distinct tokens in the order of their first occurrence. */
  function FirstOccurrences(tokens: seq<string>): seq<string> {
    if tokens == [] then []
    else
      var front := tokens[..|tokens| - 1];
      FirstOccurrences(front) + (if tokens[|tokens| - 1] in front then [] else [tokens[|tokens| - 1]])
  }

  function TotalFreq(es: seq<Entry>): int {
    if es == [] then 0 else es[0].freq + TotalFreq(es[1..])
  }

  lemma {:induction false} BumpFreqOf(es: seq<Entry>, w: string, v: string)
    ensures FreqOf(Bump(es, w), v) == FreqOf(es, v) + (if v == w then 1 else 0)
  {
    if es != [] && es[0].word != w {
      BumpFreqOf(es[1..], w, v);
    }
  }

  lemma {:induction false} BumpWords(es: seq<Entry>, w: string)
    ensures Words(Bump(es, w)) == if w in Words(es) then Words(es) else Words(es) + [w]
  {
    if es != [] {
      assert Words(es) == [es[0].word] + Words(es[1..]);
      if es[0].word != w {
        BumpWords(es[1..], w);
        assert Bump(es, w) == [es[0]] + Bump(es[1..], w);
        assert Words(Bump(es, w)) == [es[0].word] + Words(Bump(es[1..], w));
      } else {
        assert Words(Bump(es, w)) == [w] + Words(es[1..]);
      }
    }
  }

  lemma {:induction false} BumpPositive(es: seq<Entry>, w: string)
    requires forall k :: 0 <= k < |es| ==> es[k].freq >= 1
    ensures forall k :: 0 <= k < |Bump(es, w)| ==> Bump(es, w)[k].freq >= 1
  {
    if es != [] && es[0].word != w {
      BumpPositive(es[1..], w);
      assert forall k :: 0 < k < |Bump(es, w)| ==> Bump(es, w)[k] == Bump(es[1..], w)[k - 1];
    }
  }

  lemma {:induction false} BumpTotal(es: seq<Entry>, w: string)
    ensures TotalFreq(Bump(es, w)) == TotalFreq(es) + 1
  {
    if es == [] {
      assert TotalFreq([Entry(w, 1)]) == 1 + TotalFreq([]);
    } else if es[0].word == w {
      assert ([Entry(w, es[0].freq + 1)] + es[1..])[1..] == es[1..];
    } else {
      BumpTotal(es[1..], w);
      assert ([es[0]] + Bump(es[1..], w))[1..] == Bump(es[1..], w);
    }
  }

  /** In a dictionary each key's entry is found by its key. */
  lemma {:induction false} FreqOfEntry(es: seq<Entry>, k: nat)
    requires Distinct(Words(es)) && k < |es|
    ensures FreqOf(es, es[k].word) == es[k].freq
  {
    if k > 0 {
      assert Words(es)[0] != Words(es)[k];
      assert Words(es[1..]) == Words(es)[1..];
      FreqOfEntry(es[1..], k - 1);
    }
  }

  /** `calculate_word_frequencies`: each word is counted as often as it occurs
      among the tokens, and a word that does not occur is counted 0 times. */
  lemma {:induction false} FrequenciesCounts(tokens: seq<string>)
    ensures forall w :: FreqOf(Frequencies(tokens), w) == multiset(tokens)[w]
  {
    if tokens != [] {
      var front := tokens[..|tokens| - 1];
      var t := tokens[|tokens| - 1];
      FrequenciesCounts(front);
      assert tokens == front + [t];
      forall w
        ensures FreqOf(Frequencies(tokens), w) == multiset(tokens)[w]
      {
        BumpFreqOf(Frequencies(front), t, w);
      }
    }
  }

  /** The first occurrences are the tokens, each once. */
  lemma {:induction false} FirstOccurrencesDistinct(tokens: seq<string>)
    ensures Distinct(FirstOccurrences(tokens))
    ensures forall w :: w in FirstOccurrences(tokens) <==> w in tokens
  {
    if tokens != [] {
      var front := tokens[..|tokens| - 1];
      var t := tokens[|tokens| - 1];
      FirstOccurrencesDistinct(front);
      DistinctSnoc(FirstOccurrences(front), t);
      assert tokens == front + [t];
      assert forall w :: w in tokens <==> w in front || w == t;
    }
  }

  /** The keys are exactly the distinct tokens, each once, in the order in which
      each first occurs. */
  lemma {:induction false} FrequenciesWords(tokens: seq<string>)
    ensures Words(Frequencies(tokens)) == FirstOccurrences(tokens)
    ensures Distinct(Words(Frequencies(tokens)))
    ensures forall w :: w in Words(Frequencies(tokens)) <==> w in tokens
  {
    if tokens != [] {
      var front := tokens[..|tokens| - 1];
      FrequenciesWords(front);
      BumpWords(Frequencies(front), tokens[|tokens| - 1]);
    }
    FirstOccurrencesDistinct(tokens);
  }

  /** Every count is at least 1, and the counts add up to the number of tokens. */
  lemma {:induction false} FrequenciesTotal(tokens: seq<string>)
    ensures forall k :: 0 <= k < |Frequencies(tokens)| ==> Frequencies(tokens)[k].freq >= 1
    ensures TotalFreq(Frequencies(tokens)) == |tokens|
  {
    if tokens != [] {
      var front := tokens[..|tokens| - 1];
      FrequenciesTotal(front);
      BumpPositive(Frequencies(front), tokens[|tokens| - 1]);
      BumpTotal(Frequencies(front), tokens[|tokens| - 1]);
    }
  }

  /** Each entry's count is its word's number of occurrences. */
  lemma FrequenciesEntries(tokens: seq<string>)
    ensures forall k :: 0 <= k < |Frequencies(tokens)| ==>
              Frequencies(tokens)[k].freq == multiset(tokens)[Frequencies(tokens)[k].word]
  {
    FrequenciesCounts(tokens);
    FrequenciesWords(tokens);
    forall k | 0 <= k < |Frequencies(tokens)|
      ensures Frequencies(tokens)[k].freq == multiset(tokens)[Frequencies(tokens)[k].word]
    {
      FreqOfEntry(Frequencies(tokens), k);
    }
  }

  // ---------------------------------------------------------------------------
  // Sorting by frequency

  /** Frequencies never increase along `s`. */
  predicate Descending(s: seq<Entry>) {
    forall a, b :: 0 <= a < b < |s| ==> s[a].freq >= s[b].freq
  }

  /** The entries of `s` with frequency `f`, in their order in `s`. */
  function WithFreq(s: seq<Entry>, f: nat): seq<Entry> {
    if s == [] then []
    else (if s[0].freq == f then [s[0]] else []) + WithFreq(s[1..], f)
  }

  /** Places `e` after every entry at least as frequent, keeping the rest in order. */
  function Insert(s: seq<Entry>, e: Entry): seq<Entry> {
    if s == [] then [e]
    else if s[0].freq < e.freq then [e] + s
    else [s[0]] + Insert(s[1..], e)
  }

  /** `sorted(items, key=freq, reverse=True)`: a stable sort into descending
      frequency, each entry inserted after the entries placed before it. */
  function SortByFreq(es: seq<Entry>): seq<Entry> {
    if es == [] then []
    else Insert(SortByFreq(es[..|es| - 1]), es[|es| - 1])
  }

  lemma {:induction false} WithFreqAppend(a: seq<Entry>, b: seq<Entry>, f: nat)
    ensures WithFreq(a + b, f) == WithFreq(a, f) + WithFreq(b, f)
  {
    if a == [] {
      assert a + b == b;
    } else {
      assert (a + b)[0] == a[0] && (a + b)[1..] == a[1..] + b;
      WithFreqAppend(a[1..], b, f);
    }
  }

  lemma {:induction false} WithFreqNone(s: seq<Entry>, f: nat)
    requires forall k :: 0 <= k < |s| ==> s[k].freq < f
    ensures WithFreq(s, f) == []
  {
    if s != [] {
      WithFreqNone(s[1..], f);
    }
  }

  lemma {:induction false} InsertMultiset(s: seq<Entry>, e: Entry)
    ensures multiset(Insert(s, e)) == multiset(s) + multiset{e}
  {
    if s != [] && s[0].freq >= e.freq {
      InsertMultiset(s[1..], e);
      assert s == [s[0]] + s[1..];
    }
  }

  lemma {:induction false} InsertBound(s: seq<Entry>, e: Entry, hi: nat)
    requires e.freq <= hi && forall k :: 0 <= k < |s| ==> s[k].freq <= hi
    ensures forall k :: 0 <= k < |Insert(s, e)| ==> Insert(s, e)[k].freq <= hi
  {
    if s != [] && s[0].freq >= e.freq {
      var rest := Insert(s[1..], e);
      InsertBound(s[1..], e, hi);
      assert forall k :: 0 < k < |rest| + 1 ==> ([s[0]] + rest)[k] == rest[k - 1];
    }
  }

  lemma {:induction false} InsertDescending(s: seq<Entry>, e: Entry)
    requires Descending(s)
    ensures Descending(Insert(s, e))
  {
    if s == [] {
    } else if s[0].freq < e.freq {
      var r := [e] + s;
      forall a, b | 0 <= a < b < |r|
        ensures r[a].freq >= r[b].freq
      {
        assert r[b] == s[b - 1];
        if a > 0 {
          assert r[a] == s[a - 1];
        }
      }
    } else {
      var rest := Insert(s[1..], e);
      InsertDescending(s[1..], e);
      InsertBound(s[1..], e, s[0].freq);
      var r := [s[0]] + rest;
      assert Insert(s, e) == r;
      forall a, b | 0 <= a < b < |r|
        ensures r[a].freq >= r[b].freq
      {
        assert r[b] == rest[b - 1];
        if a > 0 {
          assert r[a] == rest[a - 1];
        }
      }
    }
  }

  /** Inserting `e` appends it to the entries of its own frequency and leaves the
      entries of every other frequency alone. */
  lemma {:induction false} InsertWithFreq(s: seq<Entry>, e: Entry, f: nat)
    requires Descending(s)
    ensures WithFreq(Insert(s, e), f) == WithFreq(s, f) + (if e.freq == f then [e] else [])
  {
    if s == [] {
    } else if s[0].freq < e.freq {
      if e.freq == f {
        WithFreqNone(s, f);
      }
      assert ([e] + s)[1..] == s;
    } else {
      InsertWithFreq(s[1..], e, f);
      assert ([s[0]] + Insert(s[1..], e))[1..] == Insert(s[1..], e);
    }
  }

  /** The sort orders by descending frequency and only rearranges. */
  lemma {:induction false} SortPermutes(es: seq<Entry>)
    ensures Descending(SortByFreq(es))
    ensures multiset(SortByFreq(es)) == multiset(es) && |SortByFreq(es)| == |es|
  {
    if es != [] {
      var front := es[..|es| - 1];
      var e := es[|es| - 1];
      var sf := SortByFreq(front);
      assert SortByFreq(es) == Insert(sf, e);
      SortPermutes(front);
      InsertDescending(sf, e);
      InsertMultiset(sf, e);
      assert front + [e] == es;
      assert multiset(es) == multiset(front) + multiset{e};
      assert |multiset(Insert(sf, e))| == |Insert(sf, e)|;
    }
  }

  /** The sort is stable: the entries of each frequency come out in input order. */
  lemma {:induction false} SortStable(es: seq<Entry>, f: nat)
    ensures WithFreq(SortByFreq(es), f) == WithFreq(es, f)
  {
    if es != [] {
      var front := es[..|es| - 1];
      var e := es[|es| - 1];
      var sf := SortByFreq(front);
      assert SortByFreq(es) == Insert(sf, e);
      SortStable(front, f);
      SortPermutes(front);
      InsertWithFreq(sf, e, f);
      WithFreqAppend(front, [e], f);
      assert front + [e] == es;
      assert WithFreq([e], f) == if e.freq == f then [e] else [];
    }
  }

  lemma {:induction false} InsertDistinct(s: seq<Entry>, e: Entry)
    requires Distinct(Words(s)) && e.word !in Words(s)
    ensures Distinct(Words(Insert(s, e)))
    ensures forall w :: w in Words(Insert(s, e)) <==> w in Words(s) || w == e.word
  {
    if s == [] {
      assert Words(Insert(s, e)) == [e.word];
    } else if s[0].freq >= e.freq {
      var rest := Insert(s[1..], e);
      assert Words(s) == [s[0].word] + Words(s[1..]);
      DistinctCons(s[0].word, Words(s[1..]));
      InsertDistinct(s[1..], e);
      assert Words(Insert(s, e)) == [s[0].word] + Words(rest);
      DistinctCons(s[0].word, Words(rest));
    } else {
      assert Words(Insert(s, e)) == [e.word] + Words(s);
      DistinctCons(e.word, Words(s));
    }
  }

  /** Sorting a dictionary's entries keeps its keys, each once. */
  lemma {:induction false} SortDistinct(es: seq<Entry>)
    requires Distinct(Words(es))
    ensures Distinct(Words(SortByFreq(es)))
    ensures forall w :: w in Words(SortByFreq(es)) <==> w in Words(es)
  {
    if es != [] {
      var front := es[..|es| - 1];
      var e := es[|es| - 1];
      assert Words(es) == Words(front) + [e.word];
      DistinctSnoc(Words(front), e.word);
      SortDistinct(front);
      InsertDistinct(SortByFreq(front), e);
    }
  }

  // ---------------------------------------------------------------------------
  // The analysis

  /** The row of rank `rank` for entry `e`. */
  function RowOf(rank: nat, e: Entry): Row {
    Row(rank, e.word, e.freq, e.freq * rank)
  }

  function EntryOf(r: Row): Entry {
    Entry(r.word, r.freq)
  }

  /** The (word, frequency) entries of the rows, in row order. */
  function Entries(rows: seq<Row>): (r: seq<Entry>)
    ensures |r| == |rows| && forall k :: 0 <= k < |rows| ==> r[k] == EntryOf(rows[k])
  {
    seq(|rows|, k requires 0 <= k < |rows| => EntryOf(rows[k]))
  }

  /** `sorted_words[:25]` */
  function Top(frequencies: seq<Entry>): seq<Entry> {
    var sorted := SortByFreq(frequencies);
    if |sorted| < TopN then sorted else sorted[..TopN]
  }

  /** Ranks `1..k` beside the entries, and the product `f*r` of each. */
  function Ranked(top: seq<Entry>): (rows: seq<Row>)
    ensures |rows| == |top| && Entries(rows) == top
    ensures forall k :: 0 <= k < |rows| ==> rows[k].rank == k + 1 && rows[k].product == rows[k].freq * rows[k].rank
  {
    var rows := seq(|top|, k requires 0 <= k < |top| => RowOf(k + 1, top[k]));
    assert Entries(rows) == top;
    rows
  }

  /** `analyze_zipfs_law`: sorts by descending frequency, keeps the first 25
      entries and numbers them from 1. */
  function AnalyzeZipf(frequencies: seq<Entry>): (rows: seq<Row>)
    ensures |rows| == if |frequencies| < TopN then |frequencies| else TopN
    ensures forall k :: 0 <= k < |rows| ==> rows[k].rank == k + 1 && rows[k].product == rows[k].freq * rows[k].rank
    ensures forall a, b :: 0 <= a < b < |rows| ==> rows[a].freq >= rows[b].freq
  {
    SortPermutes(frequencies);
    Ranked(Top(frequencies))
  }

  /** Every row is an entry of the dictionary. */
  lemma ZipfEntries(frequencies: seq<Entry>)
    ensures forall k :: 0 <= k < |AnalyzeZipf(frequencies)| ==> EntryOf(AnalyzeZipf(frequencies)[k]) in frequencies
  {
    var sorted := SortByFreq(frequencies);
    var top := Top(frequencies);
    assert Entries(AnalyzeZipf(frequencies)) == top;
    SortPermutes(frequencies);
    forall k | 0 <= k < |top|
      ensures top[k] in frequencies
    {
      assert top[k] == sorted[k];
      assert sorted[k] in multiset(sorted);
    }
  }

  /** No entry left out of the rows is more frequent than any row. */
  lemma ZipfTopmost(frequencies: seq<Entry>)
    ensures forall e :: e in frequencies && e !in Entries(AnalyzeZipf(frequencies)) ==>
              forall k :: 0 <= k < |AnalyzeZipf(frequencies)| ==> e.freq <= AnalyzeZipf(frequencies)[k].freq
  {
    var sorted := SortByFreq(frequencies);
    var top := Top(frequencies);
    assert Entries(AnalyzeZipf(frequencies)) == top;
    SortPermutes(frequencies);
    forall e | e in frequencies && e !in top
      ensures forall k :: 0 <= k < |top| ==> e.freq <= top[k].freq
    {
      assert e in multiset(sorted);
      var q :| 0 <= q < |sorted| && sorted[q] == e;
      assert forall k :: 0 <= k < |top| ==> top[k] == sorted[k];
    }
  }

  /** When the dictionary's keys are distinct, as they are, no word has two rows. */
  lemma ZipfDistinct(frequencies: seq<Entry>)
    requires Distinct(Words(frequencies))
    ensures Distinct(Words(Entries(AnalyzeZipf(frequencies))))
  {
    var sorted := SortByFreq(frequencies);
    var top := Top(frequencies);
    assert Entries(AnalyzeZipf(frequencies)) == top;
    SortDistinct(frequencies);
    assert forall k :: 0 <= k < |top| ==> Words(top)[k] == Words(sorted)[k];
  }

  /** The stable sort leaves ties in dictionary order: the rows of each frequency
      are the first entries of that frequency in the dictionary, in its order. */
  lemma ZipfStable(frequencies: seq<Entry>, f: nat)
    ensures WithFreq(Entries(AnalyzeZipf(frequencies)), f) <= WithFreq(frequencies, f)
  {
    var sorted := SortByFreq(frequencies);
    var top := Top(frequencies);
    assert Entries(AnalyzeZipf(frequencies)) == top;
    assert sorted == top + sorted[|top|..];
    SortStable(frequencies, f);
    WithFreqAppend(top, sorted[|top|..], f);
  }
}

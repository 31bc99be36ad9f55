# Gale-Church sentence alignment and Zipf's-law analysis, in Dafny

This project models two pieces of a small Python toolkit for a Sinhala–English
parallel corpus.

**The Gale-Church aligner** (`gale_church_align.py`):

- `BeadCosts` holds the six bead patterns and their penalties, and a dictionary lookup on them.
- `Alignment` models `_align`. The table is an `array2` filled by nested loops, followed by the
  `while True` backtrace. The length-plausibility cost is a parameter `lc`: any integer function of
  the two summed weights. The ghost functions `Best`, `MinOver` and `Trace` specify the table
  contents and the beads the backtrace collects. The methods are proved equal to them. The lemmas
  prove:
  - the result is a contiguous partition of both sides into table patterns, with at most `n + m` beads;
  - the backtrace stops exactly at `(0, 0)`;
  - each cell is a minimum, and ties go to the smaller `(di, dj)`;
  - the result costs no more than any other alignment.
- `Sentences` models `char_length` and the single-space join. It also models `align`, which turns
  sentences into weights, aligns them and joins each bead's sentences.
- `Blocks` models `str.strip()` (Python's whitespace set) and `read_blocks`.

**The word-frequency analysis** (`zipfs_law.py`):

- `ZipfsLaw` models `Counter(tokens)` as an insertion-ordered dictionary.
- It models `analyze_zipfs_law` as a stable sort by descending frequency, followed by the top-25
  cut, the ranks and the `f*r` products.

Two behaviours of the code are easy to misread. The model follows the code in both:

- Ties between equal-cost candidates are not broken by table order. `min` compares whole tuples
  `(cost, di, dj)`, so the candidate with the smaller `di`, then the smaller `dj`, is recorded.
  `Alignment.BestIsMinimal` states this rule.
- No `InvalidWeight` error exists. `_align` accepts any integer weights, and the weights `align`
  computes are character counts, so they are never negative.

## Model

| member | source | states |
|---|---|---|
| `BeadCosts.TableValid` | Zipf-s-law-and-Gale-Church-Algo-main/gale_church_align.py:7-14 | the table's keys are distinct, every bead takes a sentence, and the one-sided beads (1, 0) and (0, 1) are present |
| `BeadCosts.PatternShape` | Zipf-s-law-and-Gale-Church-Algo-main/gale_church_align.py:7-14 | the keys are exactly the pairs with both sides at most 2, at least one sentence, and no one-sided pair of width 2 |
| `BeadCosts.LookupEntry` | Zipf-s-law-and-Gale-Church-Algo-main/gale_church_align.py:7-14 | each key of a table with distinct keys looks up its own penalty |
| `BeadCosts.Lookup` | Zipf-s-law-and-Gale-Church-Algo-main/gale_church_align.py:7-14 | the penalty of a key of the table; specified by `LookupEntry` and `LookupFound`, and the keys are given by `PatternShape` |
| `Alignment.AlignWeights` | Zipf-s-law-and-Gale-Church-Algo-main/gale_church_align.py:33-56 | `_align` returns the specified backtrace: an alignment of both sides into table beads, at most `n + m` beads, whose cost equals the end cell's and is at most that of every alignment |
| `Alignment.Best` | Zipf-s-law-and-Gale-Church-Algo-main/gale_church_align.py:34-45 | the value of `m[i, j]`: `(0, 0, 0)` at the origin, else the tuple minimum over the applicable beads; specified by `BestStops`, `BestRecorded`, `BestIsMinimal` and `BestIsOptimal` |
| `Alignment.Step` | Zipf-s-law-and-Gale-Church-Algo-main/gale_church_align.py:40-45 | one comparison of `min`: a candidate replaces the running minimum only when strictly smaller as a tuple, and an applicable bead always leaves a minimum; specified further by `MinOverLeast` and `MinOverChoice` |
| `Alignment.Trace` | Zipf-s-law-and-Gale-Church-Algo-main/gale_church_align.py:47-56 | the beads the backtrace collects, in left-to-right order; specified by `TraceStep`, `TraceIsAlignment`, `TraceCost` and `TraceIsOptimal` |
| `Alignment.FillTable` | Zipf-s-law-and-Gale-Church-Algo-main/gale_church_align.py:34-45 | after the row-major loops every cell holds its specified value, with `(0, 0, 0)` at the origin |
| `Alignment.MinCandidate` | Zipf-s-law-and-Gale-Church-Algo-main/gale_church_align.py:40-45 | the running minimum over the applicable beads in table order, built from already-filled cells, is the cell's specified value |
| `Alignment.Backtrace` | Zipf-s-law-and-Gale-Church-Algo-main/gale_church_align.py:47-56 | following the recorded patterns from `(n, m)` until a `(0, 0)` pattern, then reversing, yields the specified bead list; the loop terminates because `i + j` decreases |
| `Alignment.MinOver` | Zipf-s-law-and-Gale-Church-Algo-main/gale_church_align.py:40-45 | the minimum exists whenever (1, 0) or (0, 1) applies, that is at every cell other than the origin |
| `Alignment.MinOverLeast` | Zipf-s-law-and-Gale-Church-Algo-main/gale_church_align.py:40-45 | `min` returns a tuple no greater than the candidate of any applicable bead |
| `Alignment.MinOverChoice` | Zipf-s-law-and-Gale-Church-Algo-main/gale_church_align.py:40-45 | `min` returns the candidate tuple of one applicable bead, or its starting value |
| `Alignment.BestRecorded` | Zipf-s-law-and-Gale-Church-Algo-main/gale_church_align.py:40-45 | every cell but the origin records a table key that fits inside the prefixes, and its cost is the predecessor's cost plus the length cost plus that key's penalty |
| `Alignment.BestStops` | Zipf-s-law-and-Gale-Church-Algo-main/gale_church_align.py:37-38 | the origin holds `(0, 0, 0)`, and it is the only cell whose pattern is (0, 0) |
| `Alignment.BestIsMinimal` | Zipf-s-law-and-Gale-Church-Algo-main/gale_church_align.py:40-45 | each cell's cost is at most every applicable bead's candidate cost; on an equal cost the recorded pattern has the smaller `(di, dj)` |
| `Alignment.BestStep` | Zipf-s-law-and-Gale-Church-Algo-main/gale_church_align.py:40-45 | the cost at a bead's end is at most the cost at its start plus the bead's cost |
| `Alignment.TraceStep` | Zipf-s-law-and-Gale-Church-Algo-main/gale_church_align.py:50-55 | one backtrace step appends the recorded bead, moves to a cell with a smaller `i + j`, and subtracts exactly the bead's cost |
| `Alignment.TraceIsAlignment` | Zipf-s-law-and-Gale-Church-Algo-main/gale_church_align.py:47-56 | the backtrace starts at `(0, 0)`, ends at `(i, j)`, has each bead start where the previous one ends and each width a table key, and has at most `i + j` beads |
| `Alignment.TraceWithin` | Zipf-s-law-and-Gale-Church-Algo-main/gale_church_align.py:47-56 | every bead of the backtrace lies inside the two sides and has a table key as its widths |
| `Alignment.TraceCost` | Zipf-s-law-and-Gale-Church-Algo-main/gale_church_align.py:47-56 | the beads of the backtrace cost exactly the end cell's cost |
| `Alignment.BestIsOptimal` | Zipf-s-law-and-Gale-Church-Algo-main/gale_church_align.py:35-45 | the table's cost at `(n, m)` is at most the total cost of every alignment of the two prefixes |
| `Alignment.TraceIsOptimal` | Zipf-s-law-and-Gale-Church-Algo-main/gale_church_align.py:33-56 | the alignment `_align` returns costs no more than any other alignment |
| `Alignment.AlignmentOrdered` | Zipf-s-law-and-Gale-Church-Algo-main/gale_church_align.py:53-56 | in an alignment each bead ends no later than any later bead begins |
| `Alignment.AlignmentCovers` | Zipf-s-law-and-Gale-Church-Algo-main/gale_church_align.py:53-56 | every sentence index of either side lies in exactly one bead |
| `Sentences.CharLength` | Zipf-s-law-and-Gale-Church-Algo-main/gale_church_align.py:59-61 | the character length is at most the sentence's length |
| `Sentences.CharLengthCounts` | Zipf-s-law-and-Gale-Church-Algo-main/gale_church_align.py:59-61 | the character length is the length less the number of `' '`, and equals the length exactly when there is no space |
| `Sentences.CharLengthAppend` | Zipf-s-law-and-Gale-Church-Algo-main/gale_church_align.py:59-61 | character length adds up over concatenation |
| `Sentences.CharLengthPositive` | Zipf-s-law-and-Gale-Church-Algo-main/gale_church_align.py:59-61 | a sentence with a character other than `' '` weighs at least 1 |
| `Sentences.Weights` | Zipf-s-law-and-Gale-Church-Algo-main/gale_church_align.py:66-67 | one weight per sentence, in order, each its character length; `JoinWeight` relates them to the joined text |
| `Sentences.Join` | Zipf-s-law-and-Gale-Church-Algo-main/gale_church_align.py:69 | the single-space join; specified by `JoinWeight` (its character length is the summed weights, its length the lengths plus the separating spaces) |
| `Sentences.JoinWeight` | Zipf-s-law-and-Gale-Church-Algo-main/gale_church_align.py:66-69 | a bead's joined text has the character length of the summed weights the cost saw, and its length is the lengths plus one space between neighbours |
| `Sentences.AlignmentPartitions` | Zipf-s-law-and-Gale-Church-Algo-main/gale_church_align.py:68-69 | an alignment's beads, read in order, give back each side exactly: every sentence is used once, in order |
| `Sentences.PairsOf` | Zipf-s-law-and-Gale-Church-Algo-main/gale_church_align.py:68-69 | one pair per bead in bead order, each the join of that bead's sentences; against a side with no sentences that side's text is always empty |
| `Sentences.Align` | Zipf-s-law-and-Gale-Church-Algo-main/gale_church_align.py:64-69 | `align` pairs the joined texts of the aligner's beads, which partition both sides; at most as many pairs as there are sentences on both sides, none for two empty inputs |
| `Blocks.StripCut` | Zipf-s-law-and-Gale-Church-Algo-main/gale_church_align.py:75-79 | `strip` keeps a slice with only whitespace outside it, which neither starts nor ends with whitespace |
| `Blocks.Strip` | Zipf-s-law-and-Gale-Church-Algo-main/gale_church_align.py:75-79 | `str.strip()` over Python's whitespace set; specified by `StripCut`, `StripBlank` and `StripIdempotent` |
| `Blocks.StripBlank` | Zipf-s-law-and-Gale-Church-Algo-main/gale_church_align.py:75 | a line is blank exactly when all of its characters are whitespace |
| `Blocks.StripIdempotent` | Zipf-s-law-and-Gale-Church-Algo-main/gale_church_align.py:79 | stripping a stripped line changes nothing |
| `Blocks.Segments` | Zipf-s-law-and-Gale-Church-Algo-main/gale_church_align.py:72-79 | the blocks the lines split into number one more than the blank lines |
| `Blocks.SegmentsFlatten` | Zipf-s-law-and-Gale-Church-Algo-main/gale_church_align.py:72-79 | the blocks, concatenated, are the stripped non-blank lines in order |
| `Blocks.BlocksFlatten` | Zipf-s-law-and-Gale-Church-Algo-main/gale_church_align.py:72-81 | what `read_blocks` yields, concatenated, is the stripped non-blank lines, none lost, none added, in order |
| `Blocks.SegmentsStripped` | Zipf-s-law-and-Gale-Church-Algo-main/gale_church_align.py:78-79 | every line stored in a block is non-blank and already stripped |
| `Blocks.BlankIndices` | Zipf-s-law-and-Gale-Church-Algo-main/gale_church_align.py:75-77 | the indices of the blank lines, increasing, each a blank line, and every blank line listed |
| `Blocks.SegmentsBetween` | Zipf-s-law-and-Gale-Church-Algo-main/gale_church_align.py:74-79 | block `k` is the stripped non-blank lines between the `k`-th blank line (or the first line) and the next blank line (or the end of the file) |
| `Blocks.LastSegment` | Zipf-s-law-and-Gale-Church-Algo-main/gale_church_align.py:74-81 | the block open after the last blank line holds the lines that follow it, and is empty exactly when no line follows |
| `Blocks.BlocksOf` | Zipf-s-law-and-Gale-Church-Algo-main/gale_church_align.py:72-81 | what `read_blocks` yields; specified by `BlocksShape` and `BlocksFlatten` |
| `Blocks.BlocksShape` | Zipf-s-law-and-Gale-Church-Algo-main/gale_church_align.py:72-81 | one block per blank line, even an empty one, plus a final block exactly when lines follow the last blank line (stated with `BlankIndices`), and that block is non-empty; block `k` holds the stripped non-blank lines between the blank lines that bound it; every stored line is stripped and non-blank |
| `Blocks.ReadBlocks` | Zipf-s-law-and-Gale-Church-Algo-main/gale_church_align.py:72-81 | the loop yields the specified blocks, and together they hold exactly the stripped non-blank lines |
| `Sentences.BlockSentencesWeigh` | Zipf-s-law-and-Gale-Church-Algo-main/gale_church_align.py:72-81 | every sentence `read_blocks` stores weighs at least 1, so `align` on its blocks never sees a bead whose two sides both weigh 0 |
| `ZipfsLaw.BumpFreqOf` | Zipf-s-law-and-Gale-Church-Algo-main/zipfs_law.py:42 | counting a token raises that word's count by one and leaves every other count alone |
| `ZipfsLaw.Bump` | Zipf-s-law-and-Gale-Church-Algo-main/zipfs_law.py:42 | the count update for one token; specified by `BumpFreqOf` |
| `ZipfsLaw.FrequenciesCounts` | Zipf-s-law-and-Gale-Church-Algo-main/zipfs_law.py:40-43 | each word's count is its number of occurrences among the tokens, 0 for a word that does not occur |
| `ZipfsLaw.Frequencies` | Zipf-s-law-and-Gale-Church-Algo-main/zipfs_law.py:40-43 | `Counter(tokens)` as a dictionary in first-occurrence order; specified by `FrequenciesCounts`, `FrequenciesWords`, `FrequenciesTotal` and `FrequenciesEntries` |
| `ZipfsLaw.FrequenciesWords` | Zipf-s-law-and-Gale-Church-Algo-main/zipfs_law.py:42-43 | the keys are exactly the tokens, each once, in order of first occurrence |
| `ZipfsLaw.FirstOccurrencesDistinct` | Zipf-s-law-and-Gale-Church-Algo-main/zipfs_law.py:42-43 | the first occurrences are the distinct tokens |
| `ZipfsLaw.FrequenciesTotal` | Zipf-s-law-and-Gale-Church-Algo-main/zipfs_law.py:42-43 | every count is at least 1, and the counts add up to the number of tokens |
| `ZipfsLaw.FrequenciesEntries` | Zipf-s-law-and-Gale-Church-Algo-main/zipfs_law.py:42-43 | each entry's count is the number of occurrences of its word |
| `ZipfsLaw.SortPermutes` | Zipf-s-law-and-Gale-Church-Algo-main/zipfs_law.py:77 | the sort yields descending frequencies and is a permutation of the entries |
| `ZipfsLaw.SortByFreq` | Zipf-s-law-and-Gale-Church-Algo-main/zipfs_law.py:77 | `sorted(..., key=freq, reverse=True)`; specified by `SortPermutes`, `SortStable` and `SortDistinct` |
| `ZipfsLaw.SortStable` | Zipf-s-law-and-Gale-Church-Algo-main/zipfs_law.py:77 | the sort is stable: the entries of every frequency keep their dictionary order |
| `ZipfsLaw.SortDistinct` | Zipf-s-law-and-Gale-Church-Algo-main/zipfs_law.py:77 | sorting keeps the keys, each once |
| `ZipfsLaw.InsertWithFreq` | Zipf-s-law-and-Gale-Church-Algo-main/zipfs_law.py:77 | inserting an entry appends it to the run of its own frequency and leaves the other frequencies alone |
| `ZipfsLaw.Ranked` | Zipf-s-law-and-Gale-Church-Algo-main/zipfs_law.py:79-86 | one row per entry in order, ranks `1..k`, and `f*r` is the frequency times the rank |
| `ZipfsLaw.Top` | Zipf-s-law-and-Gale-Church-Algo-main/zipfs_law.py:78 | `sorted_words[:25]`; specified through `AnalyzeZipf`, `ZipfTopmost` and `ZipfStable` |
| `ZipfsLaw.AnalyzeZipf` | Zipf-s-law-and-Gale-Church-Algo-main/zipfs_law.py:75-87 | `min(25, number of entries)` rows, ranks `1..k` in row order, `f*r` equal to frequency times rank, frequencies non-increasing |
| `ZipfsLaw.ZipfEntries` | Zipf-s-law-and-Gale-Church-Algo-main/zipfs_law.py:77-84 | every row is a (word, frequency) entry of the dictionary |
| `ZipfsLaw.ZipfTopmost` | Zipf-s-law-and-Gale-Church-Algo-main/zipfs_law.py:77-78 | no entry left out of the rows is more frequent than any row |
| `ZipfsLaw.ZipfDistinct` | Zipf-s-law-and-Gale-Church-Algo-main/zipfs_law.py:77-84 | no word appears in two rows |
| `ZipfsLaw.ZipfStable` | Zipf-s-law-and-Gale-Church-Algo-main/zipfs_law.py:77-78 | the rows of each frequency are the first entries of that frequency in dictionary order |

## Left out

- The numeric body of `length_cost` (`gale_church_align.py:22-30`) is left out. It uses floating point, `np.sqrt` and `scipy.stats.norm.logsf`. The model takes the cost as a parameter: any integer-valued function of the two summed weights. Every property holds for all such functions.
- Costs are integers. Floating-point rounding, and the infinite or NaN values that float costs can reach, are not modelled. NaN arises in the source for a bead whose two sides both weigh 0, for example an empty or all-space sentence passed straight to `align`: `np.sqrt` returns a numpy float, so `0 / 0.0` gives NaN instead of raising `ZeroDivisionError`. The tuple `min` then keeps a NaN candidate that comes first in table order, so the recorded bead need not be the minimum. `read_blocks` never stores such a sentence (`Sentences.BlockSentencesWeigh`).
- The `ZeroDivisionError` → `-inf` guard is left out. It has no integer counterpart, and under numpy division it would not fire anyway.
- `main` is left out: opening the files, pairing the block streams with `zip_longest` and printing are I/O. `Sentences.Align` covers the empty block that `zip_longest` supplies for a missing block.
- `Blocks.ReadBlocks` takes the file as its sequence of lines. Reading the file is I/O.
- `align` and `read_blocks` are generators in the source. The model returns the whole sequence they yield, so laziness is not modelled.
- `read_text_from_file`, and the module-level reading and printing in `zipfs_law.py`, are left out as I/O.
- `preprocess_text` is left out. It depends on `nltk.word_tokenize` and Unicode `lower()`.
- `plot_word_frequencies` is left out. It is pandas and matplotlib plotting.
- The pandas `DataFrame` is left out. The result is a sequence of `Row(rank, word, freq, product)` records.
- `ZipfsLaw.SortByFreq` is a stable insertion sort, not Timsort. Both stable sorts give the same result. `SortPermutes` and `SortStable` state that result.
- `Alignment.AlignWeights` is proved for the fixed six-bead table. The specification functions are stated more generally, for any table with distinct keys that contains (1, 0) and (0, 1).

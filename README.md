# SNLSH recall baselines

This project models the sequential code of smile's `SNLSHTest`. That is the
JUnit test class that checks the signature-based LSH index (`SNLSH`) for recall
against brute-force baselines. The index itself is not part of this model.
The model covers these parts:

- **Tokenizer** (`tokenizer.dfy`). `tokenize(line, regex)` with a regex that is
  one literal character (`" "` or `"\t"`). A blank line is rejected. Otherwise
  the line is split the way `String.split` splits it: no separator gives the
  line whole; with separators, trailing empty pieces are dropped. The non-empty
  pieces become the tokens, in order. The test class has two identical copies of
  this method, the `Sentence` class's (lines 55-68) and the test class's (lines
  284-297). `Tokenizer.Tokenize` models both.
- **Sentence** (`sentences.dfy`). A line together with its space-separated tokens.
- **Corpus loader** (`pairfile.dfy`). The per-line logic of `loadData`, over the
  file's lines given as a sequence. Every line is tokenized on tabs. Its last
  field and then its second-to-last field become sentences. The first two
  sentences (those of the header line) are dropped. Each exception the Java code
  can throw is modelled as a `Failure`: a blank line or a tokenizer
  `IllegalArgumentException`, a line with fewer than two fields, and
  `subList(2, 0)` on a file without lines.
- **Hamming distance** (`hamming.dfy`). `HammingDistance.d` on two 64-bit
  signatures, written as the popcount of their xor. Proved: at most 64,
  symmetric, zero on equal signatures, and the triangle inequality.
- **Candidates** (`neighbors.dfy`). The sequence of `Neighbor` records a linear
  scan meets: one per training sentence whose line differs from the query's, in
  training order. `Double.MAX_VALUE` is the `MaxValue` distance, larger than
  every Hamming distance.
- **Bounded selector** (`selection.dfy`). `HeapSelect` as the test class uses it:
  - a class over the caller's array;
  - it keeps the k smallest records added, with the largest at index 0 once full;
  - `peek` returns that record;
  - `sort` puts the kept records in descending order of distance.
- **Baselines** (`baselines.dfy`):
  - `linearNearest`: a running minimum that keeps the first of equally near
    records;
  - `linearRange`: appends every candidate within the radius to the caller's
    list, in order;
  - `linearKNN`: seeds the selector with k placeholders, offers it every
    candidate strictly nearer than the current worst, counts the admissions in
    `hit`, sorts, and trims to the `hit` real records.

The signature function `simhash64` is a parameter (`Signer`). The `signCache`
map holds `simhash64(tokens)` of every training sentence, so a lookup
`signCache.get(line)` is modelled as the signature function applied to the
sentence's tokens.

## Model

| member | source | states |
|---|---|---|
| Tokenizer.Tokenize | core/src/test/java/smile/neighbor/SNLSHTest.java:284-297 | fails with IllegalArgument("Line should not be blank!") exactly when the line is empty; otherwise returns the non-empty split pieces in order, no token empty or holding the separator, and the tokens concatenated are the line with every separator removed |
| Tokenizer.Pieces | core/src/test/java/smile/neighbor/SNLSHTest.java:289 | splitting on a separator yields at least one piece and no piece holds the separator |
| Tokenizer.DropTrailingEmptyFacts | core/src/test/java/smile/neighbor/SNLSHTest.java:289 | split's removal of trailing empty strings leaves a prefix that is empty or ends in a non-empty piece, and everything removed was empty |
| Tokenizer.NonEmptyMembers | core/src/test/java/smile/neighbor/SNLSHTest.java:290-295 | the skip-empty loop keeps only non-empty pieces of the split result |
| Tokenizer.WordsFacts | core/src/test/java/smile/neighbor/SNLSHTest.java:289-296 | the tokens of any line are non-empty, hold no separator, and concatenate to the line with its separators removed |
| Tokenizer.PiecesJoin | core/src/test/java/smile/neighbor/SNLSHTest.java:289 | splitting separator-free strings joined by the separator gives those strings back, empty ones included |
| Tokenizer.WordsJoin | core/src/test/java/smile/neighbor/SNLSHTest.java:289-296 | round trip: tokenizing non-empty separator-free tokens joined by the separator returns exactly those tokens |
| Tokenizer.WordsEmpty | core/src/test/java/smile/neighbor/SNLSHTest.java:289-296 | a line yields no tokens exactly when it consists only of separators (such a line is not an error) |
| Sentences.NewSentence | core/src/test/java/smile/neighbor/SNLSHTest.java:45-53 | fails exactly on a blank line with the tokenizer's message; otherwise keeps the line and its space tokens, which concatenate to the line without spaces |
| HammingDistance.D | core/src/test/java/smile/neighbor/SNLSHTest.java:124 | the distance of two 64-bit signatures is at most 64 |
| HammingDistance.Symmetric | core/src/test/java/smile/neighbor/SNLSHTest.java:124 | d(x, y) == d(y, x) |
| HammingDistance.SelfDistance | core/src/test/java/smile/neighbor/SNLSHTest.java:124 | d(x, x) == 0 |
| HammingDistance.Triangle | core/src/test/java/smile/neighbor/SNLSHTest.java:124 | d(x, z) <= d(x, y) + d(y, z) |
| Neighbors.Candidates | core/src/test/java/smile/neighbor/SNLSHTest.java:119-124 | a scan meets at most one candidate per training sentence |
| Neighbors.CandidatesSound | core/src/test/java/smile/neighbor/SNLSHTest.java:119-126 | every candidate is the record of a training sentence whose line differs from the query's, with that sentence as key and value and a finite distance of at most 64, so never the placeholder |
| Neighbors.CandidatesComplete | core/src/test/java/smile/neighbor/SNLSHTest.java:119-126 | every training sentence whose line differs from the query's has its record among the candidates |
| Neighbors.WithinRadiusMembers | core/src/test/java/smile/neighbor/SNLSHTest.java:164-173 | a record is in the radius result exactly when it is a candidate whose distance is at most d |
| Baselines.NeighborList.Add | core/src/test/java/smile/neighbor/SNLSHTest.java:171 | `List.add` appends at the end and keeps the earlier items |
| Baselines.LinearNearest | core/src/test/java/smile/neighbor/SNLSHTest.java:144-160 | with no candidate the result is the null-key MAX_VALUE record; otherwise it is a candidate no farther than any candidate and strictly nearer than every earlier one (the first of equally near records) |
| Baselines.NearestAdmit | core/src/test/java/smile/neighbor/SNLSHTest.java:154-157 | a strictly nearer candidate becomes the minimum and the loop invariant is kept |
| Baselines.NearestPass | core/src/test/java/smile/neighbor/SNLSHTest.java:154-157 | a candidate not strictly nearer leaves the minimum in place and the loop invariant is kept |
| Baselines.LinearRange | core/src/test/java/smile/neighbor/SNLSHTest.java:162-174 | the list ends as its earlier contents followed by exactly the candidates within the radius, in training order |
| Baselines.LinearKnn | core/src/test/java/smile/neighbor/SNLSHTest.java:109-142 | negative k fails at array creation; k = 0 fails at the first candidate's peek; otherwise the answer has min(k, number of candidates) records, all finite (no placeholder), drawn from the candidates, each at least as near as every candidate left out, in descending order |
| Baselines.Scan | core/src/test/java/smile/neighbor/SNLSHTest.java:119-129 | after the scan the selector holds the kept records plus one placeholder per free slot; kept and rejected records are together all candidates; every kept record is as near as every rejected one; while slots are free, hit counts the kept records |
| Baselines.Offer | core/src/test/java/smile/neighbor/SNLSHTest.java:123-128 | a candidate strictly nearer than the selector's peek enters it in place of that peek and hit grows by one; any other candidate leaves the kept records and hit unchanged; the scan invariant is kept with the candidate seen |
| Baselines.ScanAdmitFree | core/src/test/java/smile/neighbor/SNLSHTest.java:125-127 | while placeholders remain, the worst record is a placeholder, and admitting replaces it and counts one more hit |
| Baselines.ScanAdmitFull | core/src/test/java/smile/neighbor/SNLSHTest.java:125-127 | once k records are kept, admitting evicts the worst kept record into the rejected ones and keeps the scan invariant |
| Baselines.ScanReject | core/src/test/java/smile/neighbor/SNLSHTest.java:125 | a candidate not strictly nearer than the worst is rejected, which can only happen once the selector is full |
| Baselines.Finish | core/src/test/java/smile/neighbor/SNLSHTest.java:130-141 | sorting and trimming the selector's array yields the linearKNN answer |
| Baselines.SortedAnswer | core/src/test/java/smile/neighbor/SNLSHTest.java:130-141 | for any descending arrangement of the selector's contents, the trimmed tail is the linearKNN answer |
| Baselines.ShrinkToFit | core/src/test/java/smile/neighbor/SNLSHTest.java:131-139 | a freshly allocated array of length hit holding the last hit records of the old array, in order |
| Selection.HeapSelect.constructor | core/src/test/java/smile/neighbor/SNLSHTest.java:112 | the selector takes the caller's array as its storage, with capacity its length, holding nothing |
| Selection.HeapSelect.MoveMaxToFront | core/src/test/java/smile/neighbor/SNLSHTest.java:126 | permutes the array so that a record of largest distance is at index 0 |
| Selection.HeapSelect.Add | core/src/test/java/smile/neighbor/SNLSHTest.java:126 | while not full the record is kept; once full it replaces the largest kept record when strictly smaller and is dropped otherwise; the count of added records grows by one |
| Selection.HeapSelect.Store | core/src/test/java/smile/neighbor/SNLSHTest.java:114-116 | not-full add: the record joins the kept ones and the largest is at index 0 once the selector fills |
| Selection.HeapSelect.ReplaceMax | core/src/test/java/smile/neighbor/SNLSHTest.java:126 | full add of a smaller record: it takes the largest record's place, the new largest moves to index 0 |
| Selection.HeapSelect.Peek | core/src/test/java/smile/neighbor/SNLSHTest.java:125 | once full, the record returned is kept and is as far as every kept record |
| Selection.HeapSelect.Sort | core/src/test/java/smile/neighbor/SNLSHTest.java:130 | the front of the array holds a rearrangement of the kept records in descending order of distance (tie order unspecified) and the rest of the array is untouched |
| Selection.SortDescending | core/src/test/java/smile/neighbor/SNLSHTest.java:130 | the reference sort is a permutation of its input, of the same length, in descending order |
| Selection.Insert | core/src/test/java/smile/neighbor/SNLSHTest.java:130 | inserting into a descending sequence adds exactly that element and keeps the order |
| Selection.SentinelsFirst | core/src/test/java/smile/neighbor/SNLSHTest.java:130-137 | after a descending sort of s placeholders among finite records, the placeholders fill the first s slots and the remaining slots hold exactly the finite records, which is what the trim at `start = k - hit` relies on |
| PairFile.LinePair | core/src/test/java/smile/neighbor/SNLSHTest.java:103-104 | a well-formed line contributes exactly two sentences |
| PairFile.AddLine | core/src/test/java/smile/neighbor/SNLSHTest.java:101-105 | a blank line fails with the tokenizer's IllegalArgument, a line with fewer than two fields with IndexOutOfBounds; otherwise the data grows by the sentence of the last field, then that of the second-to-last |
| PairFile.AddFields | core/src/test/java/smile/neighbor/SNLSHTest.java:103-104 | with fewer than two fields the consumer fails with IndexOutOfBounds; otherwise it appends the sentence of the last field and then that of the second-to-last |
| PairFile.LoadData | core/src/test/java/smile/neighbor/SNLSHTest.java:98-107 | the first failing line's exception is the result; a file without lines fails in subList(2, 0); otherwise the result is every line's pair with the first two sentences dropped |
| PairFile.FirstErrorPrefix | core/src/test/java/smile/neighbor/SNLSHTest.java:101-105 | once a line fails, later lines do not change the outcome |
| PairFile.FirstErrorNone | core/src/test/java/smile/neighbor/SNLSHTest.java:101-105 | loading fails on some line exactly when some line is blank or has fewer than two fields |
| PairFile.LoadedLength | core/src/test/java/smile/neighbor/SNLSHTest.java:101-105 | every line contributes exactly two sentences |
| PairFile.LoadedPair | core/src/test/java/smile/neighbor/SNLSHTest.java:103-104 | line i's sentences sit at positions 2i and 2i+1, last field first |
| PairFile.LoadedContents | core/src/test/java/smile/neighbor/SNLSHTest.java:101-106 | a successful load has 2(n-1) sentences; line i (i >= 1) gives positions 2i-2 and 2i-1, its last then its second-to-last field, each a non-empty field without a tab |
| PairFile.OnlyTabs | core/src/test/java/smile/neighbor/SNLSHTest.java:102-103 | a non-blank line made only of tabs has no fields and fails with IndexOutOfBounds rather than in the tokenizer |

## Left out

- The `SNLSH` index (`put`, `knn`, `nearest`, `range`, banding), `createLSH` and the recall tests that compare it with the baselines. Their sources are not part of this model.
- `simhash64` is a parameter of the model. `HammingDistance.d` on two longs is written as the popcount of their xor, as smile defines it; its `double` result is a natural number here. The source of `HammingDistance` is not part of this model.
- `signCache` (lines 81, 87-91) is modelled by the signature function it memoises. This assumes every training line is in the cache, as the test class's setup ensures.
- `Files.lines` and `smile.util.Paths.getTestData` (line 100): the loader takes the file's lines as a sequence. A null line does not occur and is not modelled.
- Console output, the floating-point recall averages, JUnit annotations and fixtures: these are I/O, floating-point arithmetic or test plumbing.
- Tokenizer.Tokenize: the regex of `String.split` is limited to one literal character, the only kind the test class passes. Other regular expressions are not modelled.
- Baselines.LinearRange: the radius `double d` is a real, so NaN and infinities are not modelled.
- Selection.HeapSelect: the heap-ordering (sift-down) and the Shell sort of smile's `HeapSelect` are not part of this model. The class keeps only the properties linearKNN uses: the largest kept record at index 0 (found by a linear scan), and a descending sort (a reference insertion sort). The order among records of equal distance, and the `sorted` flag, are not modelled.
- Selection.HeapSelect.Peek: `peek()` is assumed to return slot 0 of the array, as the k = 0 error path of Baselines.LinearKnn relies on.
- Baselines.LinearKnn: the result's order is stated only up to equal distances, since the selector's tie order is not modelled.
- Baselines.Scan, Baselines.Offer and Baselines.Finish: these are sections of the one Java method `linearKNN` (the scan loop, one loop step, and sort-and-trim), kept apart so that each proof stays small. PairFile.AddLine is the loader's lambda body, and PairFile.AddFields is that body after the tokenizer call.
- The baseline `linearKNN` answers farthest first, because `HeapSelect.sort` orders descending and the trim keeps the tail. This differs from the ascending order the index's own `knn` is described as returning; the model follows the code.

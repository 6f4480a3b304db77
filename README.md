# ROUGE scoring of evaluation.py, in Dafny

This project models the ROUGE core of `evaluation.py`, which scores a system answer
against a reference answer. It covers:

- tokenising by Python's `str.split()` and `str.strip(...)` (module `Text`);
- the contiguous n-token windows of `n_split_answer` and the shared n-grams of
  `ngram` (module `NGrams`);
- the longest common subsequence of `lcs`, as a dynamic-programming table in an
  `array2` followed by a walk back through it (module `Lcs`);
- the skip-bigrams of `skip_words` (module `SkipBigrams`);
- the recall/precision pairs of `rouge_n`, `rouge_l` and `rouge_s` (module `Rouge`);
- `calculate_f_value` and the weighted aggregate of `get_f_score` (module `Scoring`).

Each loop of the source is a `method` with a loop, proved equal to a pure function
that specifies it. The properties that the code and the ROUGE measures it follows promise
(Lin, 2004, "ROUGE: A Package for Automatic Evaluation of Summaries", cited in
evaluation.py) are lemmas about those functions. Recall and precision are exact `real` ratios.

What the model follows as written, where the code departs from those ROUGE measures or from the usual F-measure `2rp/(r + p)`:

- `n_split_answer` and `skip_words` run their loop twice, so every window and every
  skip-bigram is listed twice: once in the `if answer:` copy and once in the
  unguarded copy. The model keeps both copies (`NGrams.NSplit`,
  `SkipBigrams.SkipList`). Its consequences are under "## Findings".
- `calculate_f_value` weights by `beta = precision / recall`. Its value is
  `r*p*(r² + p²) / (r³ + p³)`, not the harmonic mean `2rp/(r + p)`:
  `Scoring.FValueNotHarmonicMean` shows the two differ at (1, 0.5).
- On a tie in the table, `lcs` steps back in the reference index `j`
  (`Lcs.TieBreak`).
- `ngram` returns `list(set(...))`, whose order Python leaves unspecified. The model
  returns the set (`NGrams.Ngram`). Only its size and members are used.

## Model

| member | source | states |
|---|---|---|
| Text.Split | evaluation.py:63 | `answer.split()`: the maximal runs of non-whitespace characters, in order (`SplitSpace` splits at any whitespace character and `SplitJoin` gives the words of a single run, which together determine it; `SplitWords` and `SplitEmpty` state what it yields) |
| Text.Strip | evaluation.py:69-70 | `s.strip(chars)`: s without its leading run and its trailing run of stripped characters (`StripSlice`, `LeadLenSpec` and `StripEdges` together pin it down) |
| Text.StripSlice | evaluation.py:69-70 | the stripped string is the slice of s after its leading run of stripped characters, and everything after that slice is a stripped character |
| Text.LeadLenSpec | evaluation.py:69-70 | the leading run ends at the first character that is not stripped |
| Text.SplitJoin | evaluation.py:63 | splitting words joined by single spaces gives back those words, when each is non-empty and free of whitespace |
| Text.SplitEmpty | evaluation.py:62-63 | `answer.split()` is empty exactly when the answer is whitespace only |
| Text.SplitSpace | evaluation.py:63 | a whitespace character separates words: the words of x, a whitespace character and y are the words of x followed by the words of y, so leading, repeated and tab whitespace make no empty word |
| Text.SplitWords | evaluation.py:63 | every token that `split()` returns is non-empty and holds no whitespace |
| Text.StripIdempotent | evaluation.py:69-70 | stripping a second time changes nothing |
| Text.StripEdges | evaluation.py:69-70 | a stripped string is empty or neither starts nor ends with a stripped character |
| NGrams.Window | evaluation.py:67-70 | the window at token i: the padded tokens i .. i+n-1 with outer whitespace stripped (`WindowStripped` states what it is) |
| NGrams.NSplit | evaluation.py:56-81 | `n_split_answer`: the windows of the guarded copy for a non-empty answer, then those of the unguarded copy (`NSplitShape` states their positions) |
| NGrams.AllWindows | evaluation.py:72-79 | the windows one copy of the loop appends, one per start position i with i + n <= token count, in order (`WindowsShape` and `AllWindowsLength` state their number and positions) |
| NGrams.PadWindow | evaluation.py:67-69 | the inner loop builds, token by token, the window's stripped tokens each followed by one space |
| NGrams.AppendWindows | evaluation.py:72-79 | one copy of the outer loop appends exactly the windows for the start positions with `i + n <= size`, in order |
| NGrams.NSplitAnswer | evaluation.py:56-81 | `n_split_answer` returns the list its two loop copies build |
| NGrams.WindowsShape | evaluation.py:65-70 | one copy of the loop yields `size - n + 1` windows (none when `n > size`, `size` when `n <= 0`), window k starting at token k |
| NGrams.NSplitShape | evaluation.py:56-81 | the result has twice that many entries; the window at k appears at position k and again after the first copy |
| NGrams.NSplitMembers | evaluation.py:56-81 | the doubled list holds the same strings as a single copy of the loop |
| NGrams.WindowStripped | evaluation.py:67-70 | a window is its n tokens, each stripped of `!.,;:'"`, joined by single spaces, with outer whitespace stripped; a punctuation-only token leaves an empty word: `["sat", "."]` gives "sat", and `["sat", ".", "on"]` gives "sat  on" with two spaces (`WindowPunctuationExamples`) |
| NGrams.WindowAroundEmpty | evaluation.py:67-70 | when the middle of three tokens strips to nothing, the window holds its neighbours with two spaces between them |
| NGrams.WindowPunctuationExamples | evaluation.py:67-70 | `["sat", "."]` gives the window "sat" and `["sat", ".", "on"]` gives "sat  on" |
| NGrams.WindowJoined | evaluation.py:67-70 | a window is its n tokens, each stripped of `!.,;:'"`, joined by single spaces, when no token is punctuation only |
| NGrams.CommonNGrams | evaluation.py:43-50 | the set `ngram` returns: the reference windows that occur among the system windows (`CommonNGramsWindows` states its members) |
| NGrams.Ngram | evaluation.py:37-52 | a string is a common n-gram exactly when it is among the reference's windows and among the system's windows |
| NGrams.CommonNGramsWindows | evaluation.py:43-50 | membership in the common n-grams, stated on the windows of each answer |
| NGrams.CommonNGramsBound | evaluation.py:43-50 | there are no more common n-grams than windows of either answer |
| NGrams.AllWindowsLength | evaluation.py:65-66 | one copy of the loop yields one window per passing start position |
| Lcs.Table | evaluation.py:93-98 | the recurrence that fills `lcs_table`; `TableOptimal`, `BacktrackCommon` and `BacktrackLength` together prove it is the LCS length |
| Lcs.Backtrack | evaluation.py:100-113 | the walk back from a cell, in original order, stepping back in j on a tie |
| Lcs.Reversed | evaluation.py:113 | `lcs_result[::-1]`: the same entries in reverse order: the same length, and entry k is the input's entry k places from its end, counting the last as 0 |
| Lcs.FillTable | evaluation.py:88-98 | every table cell holds the length of the longest common subsequence of the two prefixes, by the recurrence |
| Lcs.WalkBack | evaluation.py:100-111 | the walk from the last cell collects the reverse of the backtracked subsequence |
| Lcs.Lcs | evaluation.py:84-113 | `lcs` returns a common subsequence of both lists, as long as the last table cell, and no common subsequence is longer |
| Lcs.BacktrackOptimal | evaluation.py:100-113 | the walk yields a common subsequence of maximal length |
| Lcs.TableOptimal | evaluation.py:93-98 | no common subsequence of two prefixes is longer than their table cell |
| Lcs.BacktrackCommon | evaluation.py:103-111 | the walk from any cell is a subsequence of both prefixes |
| Lcs.BacktrackLength | evaluation.py:103-111 | the walk from a cell keeps as many entries as the cell holds |
| Lcs.LcsLengthSymmetric | evaluation.py:84-113 | swapping the two lists does not change the length of the result |
| Lcs.BacktrackSelf | evaluation.py:84-113 | the LCS of a list with itself is the list |
| Lcs.TieBreak | evaluation.py:108-111 | on a tie the walk steps back in the reference index: `["x","y"]` against `["y","x"]` gives `["y"]` |
| SkipBigrams.SkipEntry | evaluation.py:129-130 | the entry for positions i < j (`SkipEntryForm` states what it is) |
| SkipBigrams.SkipList | evaluation.py:116-141 | `skip_words`: the rows of the guarded copy for a non-empty answer, then those of the unguarded copy |
| SkipBigrams.SkipPairs | evaluation.py:132-139 | what one copy of the pair loop appends (`SkipPairsLength` gives L·(L-1)/2 entries, `SkipPairsMembers` says they are exactly the entries of positions i < j) |
| SkipBigrams.AppendRow | evaluation.py:135-139 | the inner loop appends, for each j after i, token i, a space and token j stripped of punctuation, stripped of outer whitespace |
| SkipBigrams.AppendSkipPairs | evaluation.py:132-139 | one copy of the loop appends the rows for i = 0 .. size-1 in order |
| SkipBigrams.SkipWords | evaluation.py:116-141 | `skip_words` returns the list its two loop copies build |
| SkipBigrams.SkipListLength | evaluation.py:116-141 | an answer of L tokens gives L·(L-1) entries: L·(L-1)/2 pairs, twice |
| SkipBigrams.SkipListShape | evaluation.py:116-141 | the entry for positions i < j sits at its row-by-row position in the first copy of the loop, and every entry of the first copy repeats at the same position of the second |
| SkipBigrams.SkipListMembers | evaluation.py:116-141 | a string is listed exactly when it is the entry of some positions i < j |
| SkipBigrams.SkipEntryForm | evaluation.py:129-130 | an entry is token i, a space and stripped token j, or token i alone when token j is punctuation only |
| Rouge.Ratio | evaluation.py:153-156 | a ratio is non-negative, zero when the total is zero, and otherwise multiplies back to the count |
| Rouge.RougeNScores | evaluation.py:144-157 | the distinct common n-grams over each side's `n_split_answer` length, 0 for an empty list |
| Rouge.RougeN | evaluation.py:144-157 | `rouge_n` computes the number of distinct common n-grams over the length of each answer's `n_split_answer` list (twice its window count), or 0 when that list is empty |
| Rouge.RougeNBounds | evaluation.py:144-157 | both scores lie in [0, 1/2], because every window is counted twice |
| Rouge.RougeNTooLong | evaluation.py:144-157 | when n exceeds either answer's token count, both scores are 0 |
| Rouge.RougeNSelfIsHalf | evaluation.py:144-157 | an answer with at least one window and distinct windows scores (0.5, 0.5) against itself |
| Rouge.RougeNSinglePassScores | evaluation.py:144-157 | the corrected ROUGE-N: the same count over a single copy of each side's windows |
| Rouge.RougeNSinglePassSelf | evaluation.py:144-157 | counting each window once, an answer with at least one window and distinct n-grams scores (1, 1) against itself |
| Rouge.RougeNSinglePassBounds | evaluation.py:144-157 | counting each window once, both scores lie in [0, 1] |
| Rouge.RougeLScores | evaluation.py:160-177 | the LCS length of the two unigram lists over each list's length, (0, 0) when the LCS is empty |
| Rouge.LcsOfAnswers | evaluation.py:166-168 | `lcs(system_answer_list, ref_answer_list)` over the two unigram lists, system first (`Lcs.BacktrackOptimal` proves it a longest common subsequence) |
| Rouge.RougeL | evaluation.py:160-177 | `rouge_l` computes the LCS length of the unigram lists over each list's length, or 0 when the LCS is empty |
| Rouge.RougeLBounds | evaluation.py:160-177 | both scores lie in [0, 1] |
| Rouge.RougeLZero | evaluation.py:169-177 | both scores are 0 exactly when the LCS is empty, and always when either answer has no tokens |
| Rouge.RougeLSelf | evaluation.py:160-177 | an answer with at least one token scores (1, 1) against itself |
| Rouge.Matches | evaluation.py:189-192 | the intersection is no longer than the reference list, and each entry is in both lists (`MatchesMultiplicity` states which entries are kept) |
| Rouge.MatchesMultiplicity | evaluation.py:189-192 | every reference entry that occurs in the system list is kept as often as the reference list holds it, and no other string is kept |
| Rouge.MatchesAll | evaluation.py:189-192 | when every reference entry occurs in the system list, the intersection is the whole reference list |
| Rouge.RougeSScores | evaluation.py:180-198 | the matched reference skip-bigrams over each side's `skip_words` length, 0 for an empty list |
| Rouge.RougeS | evaluation.py:180-198 | `rouge_s` counts the reference skip-bigrams found among the system's, over each list's length |
| Rouge.NoPairs | evaluation.py:132-139 | an answer of at most one token has no skip-bigrams |
| Rouge.MatchesNothing | evaluation.py:190-192 | no reference entry is counted against an empty system list |
| Rouge.RougeSShort | evaluation.py:180-198 | when either answer has at most one token, both ROUGE-S scores are 0 |
| Rouge.RougeSRecallBounds | evaluation.py:194-197 | recall lies in [0, 1]; precision is only non-negative |
| Rouge.RougeSPrecisionAboveOne | evaluation.py:194-197 | system "a a" against reference "a a a" scores recall 1 and precision 3 |
| Rouge.RougeSSymmetricScores | evaluation.py:180-198 | the corrected ROUGE-S: precision counts the system's skip-bigrams found among the reference's |
| Rouge.RougeSSymmetricBounds | evaluation.py:194-197 | counting the system's skip-bigrams found among the reference's, precision lies in [0, 1] |
| Rouge.RougeSSymmetricOfA | evaluation.py:194-197 | with the corrected precision, system "a a" against reference "a a a" scores (1, 1) |
| Scoring.FValue | evaluation.py:201-212 | `calculate_f_value`: 0 unless both recall and precision are non-zero, otherwise the beta-weighted quotient with beta = precision / recall; its lemmas below state what it equals |
| Scoring.FValueClosedForm | evaluation.py:201-212 | the F value is 0 when recall or precision is 0, and `r·p·(r² + p²)/(r³ + p³)` otherwise |
| Scoring.FValueProduct | evaluation.py:207-211 | the beta-weighted quotient times `r³ + p³` is `r·p·(r² + p²)` |
| Scoring.FValueSymmetric | evaluation.py:201-212 | swapping recall and precision does not change the F value |
| Scoring.FValueDiagonal | evaluation.py:201-212 | when recall equals precision, the F value is that value |
| Scoring.FValueBetween | evaluation.py:201-212 | for positive inputs the F value lies between recall and precision |
| Scoring.FValueUnit | evaluation.py:201-212 | inputs in [0, 1] give an F value in [0, 1] |
| Scoring.FValueNonNegative | evaluation.py:201-212 | non-negative inputs give a non-negative F value |
| Scoring.FValueNotHarmonicMean | evaluation.py:206-211 | at recall 1 and precision 0.5 the F value is 5/9, not the harmonic mean 2/3 |
| Scoring.PairF | evaluation.py:276 | the F value of a non-negative score pair is non-negative |
| Scoring.SumFStep | evaluation.py:274-282 | each step of the aggregate adds the F value of the next pair |
| Scoring.RougePairsNonNegative | evaluation.py:273-282 | the five score pairs (ROUGE-1, 2, 3, L, S) are all non-negative |
| Scoring.FScore | evaluation.py:260-284 | the value `get_f_score` returns, from the cosine and the five ROUGE pairs (`FScoreUnit` bounds it) |
| Scoring.GetFScore | evaluation.py:260-284 | `get_f_score` is 0.25·cosine plus 0.15 times the sum of the five F values |
| Scoring.FScoreUnit | evaluation.py:260-284 | the score lies in [0, 1] when the cosine does and ROUGE-S precision is at most 1 |

## Left out

- `remove_stopwords` (nltk tokenising and the English stopword list) is not part of this model. `Scoring.GetFScore` takes the answers after stopword removal.
- `get_semantic_score`, `squared_sum` and the spaCy pipeline are not part of this model. The cosine similarity is a parameter of `Scoring.GetFScore`.
- `round(x, 4)` on every score pair is not modelled: ratios are exact reals, so scores agree with the source only up to that rounding.
- Floating point: `calculate_f_value` is modelled over reals, with no rounding or overflow.
- Scoring.FValue: the requires `FDefined` excludes the inputs where the source divides by zero (recall = -precision, both non-zero). Scores are never negative, so these inputs never arise from the ROUGE functions.
- NGrams.Ngram: returns a set, not `list(set(...))`, because Python does not fix that list's order. Only its length and members are used.
- Rouge.RougeSRecallBounds: states no upper bound on precision, because the source's precision can exceed 1 (see "## Findings").
- Scoring.FScoreUnit: requires ROUGE-S precision at most 1, for the same reason.
- `get_score_string`, the CSV and plotting code, argument parsing and all file I/O are not part of this model. They only format or store the scores.
- `test/benchmark_test.py` is not part of this model: it runs a retrieval benchmark and prints its output.

## Findings

| source | as written | input that shows it | evidently intended | confidence | as-written member | corrected member |
|---|---|---|---|---|---|---|
| evaluation.py:62-79 | `n_split_answer` lists every window twice, so `rouge_n` divides the distinct common n-grams by twice the window count | system "cat", reference "cat", n = 1 gives (0.5, 0.5) | the loop runs once, so an answer with distinct n-grams scores (1, 1) against itself | not executed | Rouge.RougeNSelfIsHalf | Rouge.RougeNSinglePassSelf |
| evaluation.py:189-197 | `rouge_s` counts reference skip-bigrams found among the system's, with duplicates, and divides that count by the system list's length too | system "a a", reference "a a a" gives recall 1 and precision 3 | precision at most 1: count the system's skip-bigrams found among the reference's | not executed | Rouge.RougeSPrecisionAboveOne | Rouge.RougeSSymmetricBounds |

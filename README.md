# Neighbourhood sentiment analysis — a Dafny model

`neighborhood_analysis.py` scores news articles about neighbourhoods for
sentiment. The script keeps only the sentences with strong VADER sentiment.
It averages them into one score per article and files the article scores by
year. It then loads the per-neighbourhood year maps back from disk, averages
or counts them per year, and groups the years into five-year means for a bar
chart.

This project models the computations of that script. The external sentence
tokeniser and VADER scorer, the files it reads and writes, and the plotting
are left out. The modules follow the script's functions:

- `Numbers` (`numbers.dfy`): sums and means of real-valued scores, and their bounds.
- `Text` (`text.dfy`): the Python string operations the script uses.
  - `split()` word counting.
  - `strip()`.
  - `replace(pat, "")`.
  - String ordering `<`.
- `SentenceScorer` (`sentence_scorer.dfy`): the strong-sentence filter of
  `get_doc_sent_vader`, over the compound scores of a text's sentences.
- `DocumentAggregator` (`document_aggregator.dfy`): `get_score`.
  - It skips row 0.
  - It admits texts of 10 to 6000 words.
  - It counts admitted texts with no strong sentence.
  - Each other admitted text contributes its mean strong-sentence score, to
    `all_scores` and to the list of the year its date starts with.
  - The final score is the mean of `all_scores`, or 0.
  - `GetScore` is the imperative loop, proved equal to the declarative
    `GetScoreSpec`. The lemmas about `GetScoreSpec` cover:
    - how one more row changes the result;
    - which rows cannot matter;
    - that the year map partitions the scores;
    - the meaning of the final score;
    - bounds on the scores.
- `CorpusLoader` (`corpus_loader.dfy`): `get_date_scores`.
  - Each loaded year map is filed under a display name derived from its path.
  - A later file with the same name replaces an earlier one.
  - For any neighbourhood name without `/` or `.`, the display name read back
    from the path `get_score` writes is that name with its `2`s removed and
    surrounding whitespace stripped. So `Midtown 2` reads back as `Midtown`.
    A name without `2`, `/`, `.` or surrounding whitespace reads back unchanged.
- `YearStats` (`year_stats.dfy`): `average_years`, `average_years_all` and `get_stats`.
- `FiveYearGrouping` (`five_year_grouping.dfy`): the data preparation of `graph_years`.
  - Sort the year map.
  - Rescale every value by `y / 5 - 1`.
  - Average consecutive runs of five years.

The script's loops are `method`s with loop invariants.
- The sentence filter, `get_score` and the five-year loop are proved equal to
  specification functions, and their properties are lemmas about those functions.
- The loops of `get_date_scores` and `get_stats` state their resulting map
  directly: its keys and the value at each key.
- The sort states that its output lists the map's items in strictly increasing
  key order. A separate lemma shows that only one listing satisfies this.
- `GraphYears` states that its output is the grouping of that listing.

The five-year loop runs over every entry but the last, and emits a group only
after five visited entries. So a map with five or fewer years yields no group,
and six to ten years yield one. The model follows the code here: a reading in
which five years already make one group does not match the loop as written.

## Model

| member | source | states |
|---|---|---|
| SentenceScorer.StrongScores | neighborhood_analysis.py:46-51 | the kept scores are no more than the input and each is above 0.2 or below -0.2 |
| SentenceScorer.FilterStrong | neighborhood_analysis.py:45-51 | the loop over sentence scores returns exactly the strong scores, in order |
| SentenceScorer.StrongScoresConcat | neighborhood_analysis.py:46-50 | filtering distributes over concatenation, so kept scores keep their relative order |
| SentenceScorer.StrongScoresSingle | neighborhood_analysis.py:49-50 | a single score is kept exactly when it is strong; 0.2 and -0.2 are dropped |
| SentenceScorer.StrongScoresMembers | neighborhood_analysis.py:46-50 | a value is in the result if and only if it is an input score above 0.2 or below -0.2 |
| SentenceScorer.StrongScoresEmpty | neighborhood_analysis.py:49-51 | the result is empty if and only if no sentence score clears the threshold |
| Text.WordCount | neighborhood_analysis.py:74 | n words need at least 2n - 1 characters, and 2n if the text ends in whitespace |
| Text.WordCountJoin | neighborhood_analysis.py:74 | joining two texts with whitespace adds their word counts |
| Text.WordCountToken | neighborhood_analysis.py:74 | a non-empty text without whitespace is one word |
| Text.WordCountBlank | neighborhood_analysis.py:74 | an all-whitespace text has no words |
| Text.Strip | neighborhood_analysis.py:121 | the stripped name neither starts nor ends with whitespace |
| Text.StripBounds | neighborhood_analysis.py:121 | gives bounds i <= j such that the stripped text is the slice from i to j and everything outside it is whitespace |
| Text.StripSlice | neighborhood_analysis.py:121 | the stripped text is the slice of the input between a whitespace-only prefix and a whitespace-only suffix |
| Text.StripChars | neighborhood_analysis.py:121 | strip adds no character and keeps exactly the non-whitespace characters |
| Text.StripTrimmed | neighborhood_analysis.py:121 | strip leaves a text without surrounding whitespace unchanged |
| Text.StripIdempotent | neighborhood_analysis.py:121 | stripping twice is stripping once |
| Text.RemoveAll | neighborhood_analysis.py:121 | replace with the empty string never lengthens a text and introduces no character |
| Text.RemoveAllAbsent | neighborhood_analysis.py:121 | removing a pattern one of whose characters the text lacks leaves the text unchanged |
| Text.RemoveAllPrefix | neighborhood_analysis.py:121 | removing a pattern from the pattern followed by a rest lacking one of its characters gives back the rest |
| Text.RemoveAllSuffix | neighborhood_analysis.py:121 | a trailing occurrence is cut off when no earlier character can start a match |
| Text.RemoveAllChar | neighborhood_analysis.py:121 | removing a one-character pattern leaves no occurrence of that character and keeps every other character |
| Text.RemoveAllCharConcat | neighborhood_analysis.py:121 | removing a one-character pattern distributes over concatenation |
| Text.LexLess | neighborhood_analysis.py:173 | a proper prefix sorts before the longer string |
| Text.LexLessIrreflexive | neighborhood_analysis.py:173 | no string sorts before itself |
| Text.LexLessAsymmetric | neighborhood_analysis.py:173 | two strings never sort before each other |
| Text.LexLessTotal | neighborhood_analysis.py:173 | of two distinct strings one sorts first |
| Text.LexLessTransitive | neighborhood_analysis.py:173 | the string order is transitive |
| Text.LexLeastExists | neighborhood_analysis.py:173 | every non-empty set of keys has a least key |
| Numbers.Sum | neighborhood_analysis.py:82 | the sum of no values is 0 and of one value is that value; with `SumConcat` this fixes every sum |
| Numbers.Mean | neighborhood_analysis.py:82 | the mean is the value that, times the number of values, gives their sum |
| Numbers.SumConcat | neighborhood_analysis.py:84 | the sum of a concatenation is the sum of the parts |
| Numbers.SumBounds | neighborhood_analysis.py:82 | n values within [lo, hi] sum to between n*lo and n*hi |
| Numbers.MeanBounds | neighborhood_analysis.py:82 | a mean lies within any bounds of the values averaged |
| DocumentAggregator.YearKey | neighborhood_analysis.py:72 | the year is the prefix of the date up to its first `-`, or the whole date |
| DocumentAggregator.Admitted | neighborhood_analysis.py:68-75 | an admitted row has a text of at least 19 characters, the least that 10 words need |
| DocumentAggregator.GetScoreSpec | neighborhood_analysis.py:62-86 | the scores and the no-signal count together number fewer than the rows, since row 0 never counts; `final_score` is `MeanOrZero` of the scores |
| DocumentAggregator.GetScore | neighborhood_analysis.py:62-86 | the loop's `all_scores`, `final_score`, `date_dict` and `count` equal the declarative specification |
| DocumentAggregator.AggregateStep | neighborhood_analysis.py:67-84 | one more row adds only that row's document and no-signal contribution |
| DocumentAggregator.ScoresInEmpty | neighborhood_analysis.py:83 | a year's list is empty if and only if no document is filed under that year |
| DocumentAggregator.BucketsSnoc | neighborhood_analysis.py:83 | filing a document appends its score to its year's list, creating it if new, and changes no other year |
| DocumentAggregator.BucketsPartition | neighborhood_analysis.py:83-84 | no year list is empty and their lengths add up to the number of documents |
| DocumentAggregator.MeanOrZero | neighborhood_analysis.py:86 | 0 for no scores, otherwise the value that times their number gives their sum |
| DocumentAggregator.SameAdmittedContributions | neighborhood_analysis.py:67-80 | tables that agree on every row passing the gate give the same documents and the same count |
| DocumentAggregator.SameAdmittedSameScores | neighborhood_analysis.py:67-86 | tables that agree on every row passing the gate give the same four results |
| DocumentAggregator.FirstRowIgnored | neighborhood_analysis.py:68-69 | replacing row 0 changes no result |
| DocumentAggregator.RejectedRowIgnored | neighborhood_analysis.py:74-75 | swapping a missing text or one outside 10 to 6000 words for another such row changes no result |
| DocumentAggregator.GetScoreSnoc | neighborhood_analysis.py:74-84 | a rejected row changes nothing, a row with no strong sentence adds 1 to `count` only, and any other row appends its mean to `all_scores` and to its year's list |
| DocumentAggregator.AdmittedSplit | neighborhood_analysis.py:74-84 | every admitted row is counted as no-signal or scored, exactly once |
| DocumentAggregator.GetScoreInvariants | neighborhood_analysis.py:77-84 | year lists are non-empty, hold as many scores as `all_scores`, and `count` plus the scores equals the admitted rows |
| DocumentAggregator.FinalScoreIsMean | neighborhood_analysis.py:86 | `final_score` is 0 without scores and otherwise times their number gives their sum |
| DocumentAggregator.ScoredDocsBounded | neighborhood_analysis.py:77-82 | with compound scores in [-1, 1] every document score lies in [-1, 1] |
| DocumentAggregator.ScoresBounded | neighborhood_analysis.py:82-86 | with compound scores in [-1, 1] all scores and `final_score` lie in [-1, 1] |
| CorpusLoader.NormalizeName | neighborhood_analysis.py:121 | the display name contains no `2` and has no surrounding whitespace |
| CorpusLoader.RemovalsOnArtifactPath | neighborhood_analysis.py:121 | for a name without `/` or `.`, the three removals on its written artifact path leave the name without its `2`s |
| CorpusLoader.NormalizeArtifactPath | neighborhood_analysis.py:121 | for a name without `/` or `.`, the name read back from its written path is the name with its `2`s removed and surrounding whitespace stripped |
| CorpusLoader.NormalizeSpacedTwo | neighborhood_analysis.py:121 | a trimmed name without `2`, `/` or `.` followed by a space and `2` reads back as the name alone, since the strip removes the space |
| CorpusLoader.NormalizeMidtownTwo | neighborhood_analysis.py:121 | the written path of `Midtown 2` reads back as `Midtown` |
| CorpusLoader.NormalizeNameRoundTrip | neighborhood_analysis.py:121 | a name without `2`, `/`, `.` or surrounding whitespace round-trips through its artifact path |
| CorpusLoader.GetDateScores | neighborhood_analysis.py:118-123 | the keys are the display names of all files, and each name maps to the year map of the last file with that name |
| YearStats.AverageYears | neighborhood_analysis.py:133-134 | same years, and each average times the list length is the list's sum |
| YearStats.AverageYearsAll | neighborhood_analysis.py:144-145 | same neighbourhoods and years, each value the average of its list |
| YearStats.AverageYearsBounds | neighborhood_analysis.py:133-134 | each yearly average lies within any bounds of the scores |
| YearStats.YearCounts | neighborhood_analysis.py:158 | exactly the years with a non-empty list, each mapped to its length, at least 1 |
| YearStats.GetStats | neighborhood_analysis.py:155-159 | every neighbourhood is mapped to the counts of its non-empty years |
| YearStats.StatsOfTable | neighborhood_analysis.py:133-158 | on `get_score`'s year map no list is empty, so the averages are defined, and the counts cover the same years |
| FiveYearGrouping.Rescale | neighborhood_analysis.py:175 | same length, and each original value is recovered as (r + 1) * 5 |
| FiveYearGrouping.GroupLabels | neighborhood_analysis.py:183-184 | one label per complete group among all entries but the last |
| FiveYearGrouping.GroupValues | neighborhood_analysis.py:185 | one value per complete group among all entries but the last |
| FiveYearGrouping.SortItems | neighborhood_analysis.py:173-174 | the keys in strictly increasing order, with their values |
| FiveYearGrouping.GroupFiveYears | neighborhood_analysis.py:178-187 | label k joins the years at 5k and 5k+4, value k is the mean of the five values from 5k |
| FiveYearGrouping.GraphYears | neighborhood_analysis.py:173-187 | the groups of the sorted, rescaled items; there are (n-1) div 5 of them |
| FiveYearGrouping.LastEntryUnused | neighborhood_analysis.py:179 | the last sorted entry never affects a label or a value |
| FiveYearGrouping.SumRescale | neighborhood_analysis.py:175 | rescaling takes a sum s of n values to s/5 - n |
| FiveYearGrouping.GroupValueOfRescaled | neighborhood_analysis.py:175-185 | a group's value is its five original values' sum / 25 - 1 |
| FiveYearGrouping.SortedItemsUnique | neighborhood_analysis.py:173 | the sorted listing of a map is unique, so the grouping depends only on the map |

## Left out

- Reading the article CSV (line 64) is not modelled. The table arrives as a sequence of rows. The row index is its position, which is pandas' default index.
- Writing the pickles (lines 88-92) is not modelled, nor the `filename[5:-4]` slicing that names them. `CorpusLoader.NormalizeArtifactPath` starts from the written path.
- Listing the directory and unpickling (lines 119-120) are not modelled. The files arrive as a sequence of path and year-map pairs, in the order the listing yields them.
- Sentence tokenisation and VADER's compound score (lines 43-48) are external models. They are a parameter `Scorer`, a function from a text to its sentences' compound scores.
- Plotting (lines 189-192) is not modelled.
- The top-level driver lines (32, 104-109, 161-164) are not modelled: the fixed neighbourhood list, `get_nhood_scores` with the `total` it prints, and the transposed and column-sorted table of `get_stats` written to `yearly_counts.csv`. `get_nhood_scores` only returns `GetScore(...).count`.
- Scores are real numbers, so floating-point rounding in sums and divisions is not modelled.
- A date cell that is not a string (NaN) makes line 72 raise, even on rows the gate would reject. The model takes every date to be a string.
- Python dictionaries keep insertion order; maps do not. The model states contents, not key order, except where `graph_years` sorts.
- `YearStats.AverageYears` requires every year list to be non-empty, because the source divides by its length and raises on an empty list. `YearStats.StatsOfTable` shows that `get_score`'s maps always satisfy this.
- `FiveYearGrouping.GraphYears` requires a non-empty map, because unpacking the items of an empty map raises.
- `FiveYearGrouping.SortItems` models `sorted(items)` by repeatedly taking the least remaining key. Keys are distinct, so tuple comparison reduces to key comparison.
- `Text.IsSpace` lists the code points Python's `str.isspace` accepts. Unicode tables beyond that list are not modelled.
- `Text.RemoveAll` states no general "no occurrence remains", because that is false for multi-character patterns. Occurrences can be formed by the removal itself. The specific facts the name computation needs are separate lemmas.

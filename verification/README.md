# OMR answer-sheet processor — a Dafny model of the recognition and scoring core

This project models the core of an optical-mark-recognition (OMR) answer-sheet
processor. Given the regions an image library finds on a scanned sheet, the
recogniser does the following:

- it keeps the regions whose area lies inside a configured band;
- it orders them top to bottom and left to right;
- it clusters them into question rows (a new row starts when a region's y is
  20 or more away from the previous region's y);
- it decides which cells are marked from their fill ratio;
- it classifies each row as blank, a single letter, or `MULTIPLE`, each with
  a fixed confidence;
- it scores the answers against a key and derives the student identifier from
  the file name.

A batch report then aggregates the sheets. It gives average score and
confidence, a five-bucket score histogram, message totals, a success rate and
two accuracy percentages.

The repository has two scorers and two report generators: the recogniser's in
`omr_system.py` and the demo's in `simple_omr_demo.py`, which the graphical
front ends use. The model covers both side by side. It proves exactly where
they diverge:

- The demo scorer has no case for the ambiguous sentinel, so the two tallies
  differ exactly when an answer is `MULTIPLE` and the key entry is `multiple`
  in some casing (in ASCII casing; see Common.Upper under Left out).
- The demo's average confidence divides by all sheets, not only by the sheets
  that have confidences.

The modules follow the pipeline:

- `Common`: Option/Result, ASCII upper-casing, `Flatten`, subsequences, and
  percentages (`Percentage`, `IsPercentageOf`).
- `OmrConfig`: the configuration record and its defaults.
- `Sorting`: a stable insertion sort on a lexicographic key, like Python's
  `sorted` with a tuple key.
- `Grid`: regions, the area filter, and the row split. The split is given
  both declaratively (`Groups`) and as the source's loop (`ClusterRows`).
- `Marks`: fill ratio, marking and per-row classification.
- `Scoring`: both `calculate_score` loops and the declarative tally they
  compute.
- `StudentId`: `basename` and `splitext` with POSIX semantics.
- `Sheets`: the answer-sheet record.
- `Pipeline`: `process_answer_sheet`.
- `Report`: both `generate_report` variants and the two accuracy helpers.

All ratios are exact reals.

## Model

| member | source | states |
|---|---|---|
| OmrConfig.DefaultConfigWellFormed | omr_system.py:22-42 | The default configuration has positive areas and counts, a non-empty area band and a threshold in (0, 1). A grid needs at least 40 accepted regions. |
| Sorting.SortBy | omr_system.py:116 | The sorted sequence is a permutation of the input (same multiset) and is ordered by the key. |
| Sorting.SortSortedIsIdentity | omr_system.py:129 | Sorting a sequence that is already in key order returns it unchanged, so the sort never reorders needlessly. |
| Grid.FilterByArea | omr_system.py:106-110 | Every kept region lies strictly inside (min_contour_area, max_bubble_area). Each region keeps its multiplicity if it is inside the band and disappears otherwise. The kept regions are a subsequence of the input, so they stay in their original order. |
| Grid.DetectAnswerGrid | omr_system.py:100-138 | Fails with "Insufficient contours..." exactly when fewer than min_questions*min_options regions pass the filter. Otherwise the regions are a (y, x)-ordered permutation of the filtered ones. The rows partition them, each row is non-empty, x-ordered and in the band, and there is one more row than there are row breaks. |
| Grid.ClusterRows | omr_system.py:119-136 | The loop as written, with the -1 start value, computes the declarative row split with each row x-sorted. The rows are non-empty and together hold exactly the input regions. There is one more row than there are gaps of 20 or more between consecutive regions. |
| Grid.GroupsIsRowSplit | omr_system.py:121-132 | The declarative split is a row split. Read in order it gives back the input, no group is empty, and neighbours inside a group are less than 20 apart in y. Consecutive groups are separated by a gap of 20 or more. |
| Grid.RowSplitUnique | omr_system.py:121-132 | Any split that obeys the same-row rule is the declarative split. The rule (compare with the previous region, not the row's first) determines the rows. |
| Grid.GroupsCount | omr_system.py:125-131 | A non-empty sequence splits into 1 + (number of adjacent pairs 20 or more apart in y) rows. |
| Grid.GroupsFlatten | omr_system.py:123-136 | Concatenating the rows, before the x-sort, gives back the position-ordered input: nothing lost, duplicated or moved. |
| Marks.FillRatio | omr_system.py:149-156 | The ratio is non-negative and is 0 for a box with no pixels. Times the box size it gives the ink count, and it is at most 1 when the ink fits in the box. |
| Marks.DetectMarkedAnswers | omr_system.py:140-164 | One boolean list per row, each as long as its row. A cell is marked iff its fill ratio strictly exceeds the threshold. |
| Marks.MarkedIffEnoughInk | omr_system.py:152-159 | With a non-negative threshold, a cell is marked iff its box has pixels and its ink exceeds threshold times box size. A zero-area box is never marked. |
| Marks.MarkCount | omr_system.py:185 | The mark count is the number of `true` cells (their multiplicity in the row). It is at most the row length, and it is 0 iff no cell is marked. |
| Marks.MarkCountCases | omr_system.py:185-198 | The count is 1 iff exactly one cell is marked, and at least 2 iff two different cells are marked. So a single marked cell gives its letter and two or more give the sentinel. |
| Marks.FirstMarked | omr_system.py:192 | list.index(True): the result is a marked cell and no earlier cell is marked. |
| Marks.OptionLetter | omr_system.py:193 | chr(ord('A') + j) has code 65 + j. It succeeds below U+D800 and from U+E000 to U+10FFFF, and fails with the chr range error past U+10FFFF. |
| Marks.Classify | omr_system.py:185-198 | No mark gives ("", 0.0) and two or more give ("MULTIPLE", 0.3). Exactly one mark at j gives that option's letter with 0.9, and fails exactly when the letter cannot be formed. |
| Marks.AnswerRevealsMarkCount | omr_system.py:187-198 | The answer alone tells the outcome. Empty iff no mark, the sentinel iff two or more, one character iff exactly one. |
| Marks.ClassifyRows | omr_system.py:181-198 | Succeeds iff every row classifies. Then there is one answer and one confidence per row, each pair that row's classification. Otherwise the error is the chr range error. |
| Marks.TwoMarksCountTwice | omr_system.py:185 | Two distinct marked cells make the mark count at least 2. |
| Sheets.FailedSheet | omr_system.py:218-230 | The error record: student "UNKNOWN", no answers or confidences, zero score and tallies. It has the key length as total and exactly one message, "Processing error: " + the raised message. |
| Pipeline.ProcessAnswerSheet | omr_system.py:166-230 | An undecodable image, too few regions or an unformable letter yields the error record with that message. Otherwise there are no errors, and the answers and confidences are those of the classified rows. The tallies are the recogniser's tally against the key, the identifier is the file stem, every confidence is 0.0, 0.9 or 0.3, and the score is in [0, 100]. |
| Pipeline.Recognise | omr_system.py:172-198 | No image gives "Could not load image: " + path. A grid failure passes its message through. Otherwise recognition succeeds iff every row classifies, with one answer and one confidence per grid row; any other failure is the chr range error. |
| Pipeline.ClassifiedConfidences | omr_system.py:189-198 | Every confidence of a classified sheet is one of the three fixed values. |
| Pipeline.OneAnswerPerRow | omr_system.py:175-198 | A successfully recognised sheet has a grid and exactly one answer per detected row. |
| Scoring.Judge | omr_system.py:245-252 | A verdict is blank iff the answer is empty, and correct only for a case-insensitive match with the key entry. The demo credits exactly the non-empty matching answers; the recogniser additionally never credits "MULTIPLE". |
| Scoring.Judgements | omr_system.py:241-252 | One verdict per position covered by both answers and key (min of the lengths). Answers past the key are never judged. |
| Scoring.VerdictCountsAddUp | omr_system.py:245-252 | Every judged position is counted exactly once as correct, incorrect or blank. |
| Scoring.TallyAccountsForEveryQuestion | omr_system.py:232-257 | An empty key gives (0.0, 0, 0, len(answers)). Otherwise correct + incorrect + blank == min(len(answers), len(key)), and score times key length equals correct times 100. The score is in [0, 100] and correct is at most the key length. |
| Scoring.ExtraAnswersIgnored | omr_system.py:241-243 | With a non-empty key, answers beyond the key's length leave the tally unchanged. |
| Scoring.AmbiguousNeverCorrect | omr_system.py:247-248 | The recogniser never credits "MULTIPLE", whatever the key holds. |
| Scoring.RecogniserCalculateScore | omr_system.py:232-257 | The loop with its early break computes the declarative tally: the empty-key result, the counts summing to the judged positions, a score that times the key length gives correct times 100, and a score in [0, 100]. |
| Scoring.DemoCalculateScore | simple_omr_demo.py:45-68 | The demo loop, which has no sentinel case, computes the demo tally with the same empty-key result, sum, share of correct answers and range. |
| Scoring.VerdictsAgreeOffDivergence | simple_omr_demo.py:58-63 | Per question the two scorers agree except where the answer is "MULTIPLE" and the key matches it ignoring case. There the recogniser says incorrect and the demo says correct. |
| Scoring.DemoCreditsAtLeastAsMany | simple_omr_demo.py:58-63 | Verdicts that agree or move from incorrect to correct never lower the correct count. One such move raises it. |
| Scoring.ScorersDisagreeOnlyOnAmbiguousKey | simple_omr_demo.py:45-68 | The two tallies are equal iff no position diverges. When one does, the demo reports strictly more correct answers. |
| Scoring.AllCorrectScoresHundred | omr_system.py:245-255 | Worked example: four answers matching a four-entry key give (100.0, 4, 0, 0). |
| Scoring.MixedSheetScoresFifty | omr_system.py:245-255 | Worked example: two right, one wrong and one blank out of four give (50.0, 2, 1, 1). |
| Scoring.CaseIsIgnored | simple_omr_demo.py:60 | Worked example: "b" against key "B" is correct. |
| StudentId.Basename | omr_system.py:261 | The base name contains no '/'. It is a suffix of the path, and a '/' precedes it whenever it is shorter than the path. |
| StudentId.SplitExtRoot | omr_system.py:262 | For a name without '/', either nothing is removed and the name has no dot that starts an extension, or exactly a final "." + extension is removed (no further dot) and what remains is not all dots. |
| StudentId.ExtractStudentId | simple_omr_demo.py:70-74 | The identifier contains no '/' and is a prefix of the base name. What is removed starts at the last dot, which must follow something other than dots. |
| StudentId.RecogniserExtractStudentId | omr_system.py:259-269 | The recogniser's digit check returns the same stem either way, so both extractors agree. |
| StudentId.StudentIdOfFileName | simple_omr_demo.py:72-73 | Round trip: dir/stem.ext yields stem for any directory prefix, any stem that is not all dots, and any extension without a dot. |
| StudentId.StudentIdWithoutExtension | simple_omr_demo.py:72-73 | A file name without any dot is its own identifier. |
| StudentId.HiddenFileKeepsName | omr_system.py:261-262 | A name whose only dot is the leading one (".profile") keeps it: there is no extension to remove. |
| Common.Percentage | omr_system.py:352 | count/n*100 scaled back by n gives count*100. It is non-negative iff count is, and at most 100 iff count is at most n. |
| Common.PercentageExtremes | omr_system.py:352 | A percentage is 100 exactly for the full count and 0 exactly for none. |
| Report.BucketsDisjoint | omr_system.py:298-304 | No score lies in two histogram buckets (top bucket [90, 100], the others half-open). |
| Report.BucketsCoverRange | omr_system.py:298-304 | Every score in [0, 100] lies in some bucket. |
| Report.BucketCountsAddUp | simple_omr_demo.py:174-180 | The five counts never exceed the number of sheets, and sum to it when all scores are in [0, 100]. |
| Report.ScoreDistribution | omr_system.py:298-304 | The histogram's total is at most n, and exactly n when all scores are in [0, 100]. |
| Report.ErrorTallies | omr_system.py:295 | Messages are at least the failed sheets, and exactly as many when no sheet has more than one. The error-free count is n iff no sheet failed, and 0 iff all did. |
| Report.MarkDetectionAccuracy | omr_system.py:341-352 | Lies in [0, 100] and is 0 without confidences. Otherwise, scaled by the number of confidences, it gives 100 times the number above 0.7. |
| Report.HighConfidenceCountFull | omr_system.py:351 | Every confidence is counted as high iff every one exceeds 0.7. |
| Report.MarkDetectionAccuracyFull | simple_omr_demo.py:217-228 | With some confidences, accuracy is 100 iff every confidence exceeds 0.7. |
| Report.GridDetectionSuccess | omr_system.py:354-357 | Lies in [0, 100] and is 0 for no sheets. Otherwise, scaled by n, it gives 100 times the number of sheets without messages. |
| Report.GridDetectionSuccessExtremes | simple_omr_demo.py:230-233 | On a non-empty batch the rate is 100 iff every sheet is error-free, and 0 iff every sheet has a message. |
| Report.AverageConfidencesRelated | simple_omr_demo.py:168 | Without any confidences the recogniser's average is NaN (None) and the demo's is 0. Otherwise demo × n == recogniser × (number of sheets with confidences). |
| Report.SheetConfidence | omr_system.py:322 | A sheet's detail confidence is 0 without confidences; otherwise it times the number of confidences gives their sum (their mean). |
| Report.RecogniserAverageConfidence | omr_system.py:292 | None (numpy's NaN) iff no sheet has confidences; otherwise the mean of the per-sheet means over the sheets that have confidences. |
| Report.DemoAverageConfidence | simple_omr_demo.py:168 | The sum of the per-sheet means divided by the number of all sheets: times n it gives that sum. |
| Report.EverySheetHasMean | omr_system.py:292 | When every sheet has confidences, every sheet contributes a mean. |
| Report.SheetMeansInUnitRange | omr_system.py:292 | Means of confidences in [0, 1] lie in [0, 1]. |
| Report.AverageConfidencesInUnitRange | omr_system.py:292 | With confidences in [0, 1], both averages, where defined, lie in [0, 1]. |
| Report.SuccessRate | simple_omr_demo.py:188 | (n - messages)/n*100 is at most 100. It is non-negative iff there are no more messages than sheets, and scaled by n it gives (n - messages)*100. |
| Report.AverageScore | omr_system.py:291 | The average score times the number of sheets gives the sum of the sheets' scores. |
| Report.SuccessRateIsGridSuccess | omr_system.py:312 | When no sheet has more than one message, the success rate equals the grid detection rate. |
| Report.AverageScoreInRange | omr_system.py:291 | With all scores in [0, 100], so is the average score. |
| Report.RecogniserGenerateReport | omr_system.py:284-331 | An empty batch gives the error answer. Otherwise the summary counts all sheets and all messages. The average score times n is the score sum, and the success rate times n is (n - messages)*100, at most 100. The details are the sheets' records in order, each with its mean confidence. The histogram is the five bucket counts, totalling at most n (exactly n for in-range scores). The mark accuracy is 0 without confidences and otherwise the exact percentage above 0.7. The grid rate is the exact percentage of error-free sheets. The average confidence is the NaN-aware mean over sheets with confidences. |
| Report.DemoGenerateReport | simple_omr_demo.py:160-207 | The same values for average score, success rate, details, histogram and both accuracies. The average confidence is summed over sheets with confidences and divided by all sheets. |
| Report.ReportsDifferOnlyInAverageConfidence | simple_omr_demo.py:168 | The two reports agree in every field except the average confidence. |
| Report.ReportsAgreeWhenEverySheetHasConfidences | simple_omr_demo.py:168 | When every sheet has confidences, the two reports are identical. |

## Left out

- Image decoding and preprocessing (grey conversion, blur, adaptive threshold) call OpenCV. They are not modelled. A sheet arrives as an optional `Image`; `None` stands for `imread` returning nothing.
- Pipeline.ProcessAnswerSheet: OpenCV errors raised while preprocessing are not representable. One example is an even blur kernel or threshold block size from a configuration override. The source turns them into an error record with OpenCV's own message. The model's only image failure is "Could not load image".
- Contour extraction, contour area and bounding boxes are library calls. Regions arrive as records `(x, y, w, h, area)`. The ink of a box arrives through the image's `measure` function as a `(marked, total)` pixel count.
- `load_answer_key`, `process_batch`, report file writing, `visualize_results` and the command-line `main` are file, directory and plotting I/O. The key is a parameter, and the report is returned, not written.
- The two graphical front ends (`omr_app.py`, `omr_app_advanced.py`) are UI and threading around the same calls.
- The demo's `process_answer_sheet` and `create_demo_data` simulate sheets from file-name substrings and random numbers. No recognition happens there.
- Rounding (`round(..., 2)` and `round(..., 3)`) is not modelled. All ratios are exact reals, so the report shows unrounded values.
- Report.RecogniserAverageConfidence: numpy's mean of an empty list is NaN, modelled as `None`.
- Common.Upper: `str.upper` is modelled for ASCII letters only; other characters are kept as they are.
- Marks.OptionLetter: Dafny characters cannot hold surrogate code points, so option indices whose letter would fall in U+D800..U+DFFF fail like out-of-range ones. Python would return a lone surrogate there; in practice the index is below 26.
- StudentId.ExtractStudentId: paths follow POSIX `os.path` rules. Windows separators and drive letters are not modelled.
- OmrConfig.Config: `grid_tolerance`, `min_bubble_area` and `partial_credit` are carried but read by no modelled step. The blur and threshold fields only feed the preprocessor, which is left out.
- Sorting.SortBy: stability (equal keys keep their input order) is built into `Insert` but not stated as a contract. Only order and permutation are.
- The `total_questions` field is the key's length, passed as a parameter. The source reads it from the loaded key.

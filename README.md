# SIGMORPHON 2020 task 1: evaluation scoring and aligner bookkeeping, in Dafny

This project models two parts of the grapheme-to-phoneme shared task code.

**Evaluation** (`task1/evaluation`). `evallib.edit_distance` fills a
`uint8` dynamic-programming table in place. Its boundary row and column
are 1, not `i` and `j`, so a sequence against an empty one is at distance
1 whatever its length (`edit_distance([], ["a", "b", "c"])` is 1, not 3):
LER undercounts differences in length when one side is empty. The model
keeps this border. `score` reduces one gold/hypothesis pair to
`(edits, gold length)`. `tsv_reader` splits each line at its first tab and
splits both halves on whitespace. `evaluate.py` folds the scores of one file
into four counters and prints WER and LER. `evaluate_all.py` does this for
every file, with fresh counters per file, and prints the two macro-averages.

**Aligner bookkeeping** (`task1/baselines/fst/align.py`). This covers:
- the boolean flag parser `_str_to_bool`;
- `_label_union`, which builds a two-state automaton arc by arc and adds
  the epsilon label 0 to the caller's set;
- `_narcs`;
- the 8-digit hexadecimal example keys and the first-tab split in
  `_lexicon_covering`;
- the conditional `train_opts` list;
- the trial table of random starts, with its seeds and per-trial file names;
- the first-minimum choice among the trial results.

Modules:
- `Wrappers`: `Option`, `Result`, and `Collect`. `Collect` is an ordered map
  that stops at the first error. It stands for `pool.map` and for a Python
  loop that raises.
- `Text`: Python whitespace, `str.rstrip`, `str.split("\t", 1)` and `str.split()`.
- `Format`: zero-padded decimal and hexadecimal digits, and Python's
  ordering of strings.
- `EvalLib`: `edit_distance` as an imperative method over an `array2<uint8>`,
  proved against a recursive specification. Also `score` and the line parser.
- `Evaluate`: the counter loop (`Tally`), the two percentages and one file's report.
- `EvaluateAll`: the per-file loop with its `wers`/`lers` lists, and the means.
- `Automaton`: a mutable `Fst` class with its states' arc lists, start state
  and final weights, plus OpenFst's `Verify` checks.
- `Align`: the flag parser, the label union, arc counting, keys, the line
  split and stage one's bookkeeping.
- `AlignTraining`: the option list, the trial table and its paths, and the
  choice of the best trial.

The random sample, the tokenizers (`pynini.accep`) and the external trainer
(`baumwelchrandomize` plus `baumwelchtrain`) are parameters. The sample is
any list of the requested size with distinct values in 1..32766. A tokenizer
is a function from a field to its labels, or to nothing when compilation
fails. The trainer is a function from a trial to its final likelihood, or to
nothing when `_random_start` raises. It raises in three places only: the
`check_call` on `baumwelchrandomize` (`task1/baselines/fst/align.py:240`), a stderr line of
`baumwelchtrain` that fails `assert match` (line 260), and a number
`float()` cannot read (line 261). The exit status of `baumwelchtrain`
is never checked, so a failed training run still gives a likelihood:
infinity, or the last one it printed. Files are given as their lines.

## Model

| member | source | states |
|---|---|---|
| EvalLib.EditDistance | task1/evaluation/evallib.py:16-34 | the filled table's last cell is the wrapped `uint8` recurrence; with at most 255 labels per side it equals the unbounded distance and is 0 exactly when the sequences are equal |
| EvalLib.Distance | task1/evaluation/evallib.py:20-24 | against an empty sequence the distance is 1, unless both are empty (boundary row and column are 1, not `i`/`j`) |
| EvalLib.CellZeroIffEqual | task1/evaluation/evallib.py:25-33 | a table cell is 0 exactly when the two prefixes are equal |
| EvalLib.DistanceZeroIffEqual | task1/evaluation/evallib.py:22-34 | the distance is 0 if and only if the sequences are equal |
| EvalLib.CellSymmetric | task1/evaluation/evallib.py:23-33 | cell (i, j) for (x, y) equals cell (j, i) for (y, x) |
| EvalLib.DistanceSymmetric | task1/evaluation/evallib.py:23-33 | the distance does not depend on the order of its arguments |
| EvalLib.CellAtMostMax | task1/evaluation/evallib.py:23-33 | every cell (i, j) is at most max(i, j) |
| EvalLib.DistanceAtMostMax | task1/evaluation/evallib.py:22-34 | the distance is at most the longer length |
| EvalLib.TableCellAgrees | task1/evaluation/evallib.py:22-33 | while every cell up to (i, j) is at most 255, the `uint8` cell equals the unbounded one |
| EvalLib.TableCellFits | task1/evaluation/evallib.py:22-33 | for i, j at most 255 the `uint8` cell never wraps |
| EvalLib.TableCellAtMostMax | task1/evaluation/evallib.py:22-33 | even with wrap-around, the `uint8` cell (i, j) is at most max(i, j) |
| EvalLib.WrappedDistance | task1/evaluation/evallib.py:22-34 | the script's result, wrapped or not, never exceeds the longer length |
| EvalLib.DistanceFitsTable | task1/evaluation/evallib.py:22-34 | with both lengths at most 255 the script's result is the unbounded distance |
| EvalLib.CellOfDisjoint | task1/evaluation/evallib.py:27-33 | with no label in common, cell (i, j) is min(i, j), plus 1 when i and j differ |
| EvalLib.WrapsAt255By256 | task1/evaluation/evallib.py:22-34 | 255 against 256 labels with none in common: the table returns 0 although the distance is 256 |
| EvalLib.WrappedDistanceCounterexample | task1/evaluation/evallib.py:22-34 | `edit_distance(["a"]*255, ["b"]*256)` is 0 for unequal inputs |
| EvalLib.Score | task1/evaluation/evallib.py:37-46 | the second component is the gold length; the first is 0 exactly when gold equals hypothesis, is symmetric and is at most the longer length |
| EvalLib.ParseLine | task1/evaluation/evallib.py:53-57 | no tab is an error; otherwise the gold labels are the maximal runs of non-whitespace before the first tab and the hypothesis labels those after it (`Text.SplitsInto`), together they hold every non-space character of the line, and an all-space hypothesis gives `[]` |
| EvalLib.ParseLineFacts | task1/evaluation/evallib.py:53-57 | each half is cut into its maximal non-whitespace runs, splitting keeps exactly the non-space characters of each half, and right-stripping the hypothesis changes nothing |
| EvalLib.TsvReader | task1/evaluation/evallib.py:49-57 | one pair per line, each the parse of its line; the reader fails exactly when some line has no tab |
| Text.RStrip | task1/evaluation/evallib.py:56 | the result is a prefix that does not end in whitespace, and only whitespace was removed |
| Text.SplitOnce | task1/evaluation/evallib.py:53 | no separator gives nothing; otherwise the text is head, separator, tail, and the head has no separator |
| Text.Words | task1/evaluation/evallib.py:57 | every word is non-empty and has no whitespace |
| Text.Gaps | task1/evaluation/evallib.py:57 | there is at least one whitespace run, and the first is non-empty when the text starts with whitespace |
| Text.WordsCut | task1/evaluation/evallib.py:57 | the text is gap 0, word 0, gap 1, ..., last word, last gap, with every gap all whitespace and the gaps between words non-empty |
| Text.CutUnique | task1/evaluation/evallib.py:57 | any such cut of the text has exactly the words and gaps of `split()` |
| Text.SplitsIntoWords | task1/evaluation/evallib.py:57 | a list is a cut of the text into maximal non-whitespace runs exactly when it is `split()` of the text |
| Text.WordsKeepNonSpace | task1/evaluation/evallib.py:57 | the words joined back are exactly the non-space characters |
| Text.WordsEmptyIffAllSpace | task1/evaluation/evallib.py:56-57 | no words exactly when the text is all whitespace |
| Text.WordsIgnoreRStrip | task1/evaluation/evallib.py:56-57 | right-stripping before splitting does not change the words |
| Format.HexRoundTrip | task1/baselines/fst/align.py:200 | reading the hexadecimal digits back gives the number |
| Format.HexLength | task1/baselines/fst/align.py:200 | below 16^width the text has exactly `width` digits |
| Format.HexOrder | task1/baselines/fst/align.py:200 | for fixed-width numbers, numeric order is string order |
| Format.DecimalRoundTrip | task1/baselines/fst/align.py:231 | reading the decimal digits back gives the number |
| Format.DigitChar | task1/baselines/fst/align.py:200 | a digit value becomes a lower-case hexadecimal digit (a decimal one below 10) that reads back as the value; only 0 gives `'0'` |
| Format.HexDigits | task1/baselines/fst/align.py:200 | at least `width` (and at least one) characters, all in `0-9a-f`, and a leading `'0'` only as padding up to `width` or for the number 0 |
| Format.DecimalDigits | task1/baselines/fst/align.py:231 | at least `width` (and at least one) characters, all in `0-9`, and a leading `'0'` only as padding up to `width` or for the number 0 |
| Evaluate.Tally | task1/evaluation/evaluate.py:27-33 | `correct + incorrect` is the number of examples, `correct` counts the zero-edit ones, and the totals are the sums of edits and of gold lengths |
| Evaluate.CountedStep | task1/evaluation/evaluate.py:27-33 | each example raises exactly one of `correct`/`incorrect` by one and adds its edits and its gold length |
| Evaluate.ScoresAt | task1/evaluation/evaluate.py:26 | the k-th score is the score of the k-th pair |
| Evaluate.Percent | task1/evaluation/evaluate.py:34-35 | `100 * part / whole` is non-negative and 0 exactly when `part` is; for `part <= whole` it is at most 100 and 100 exactly when `part == whole` |
| Evaluate.WordErrorRate | task1/evaluation/evaluate.py:34 | fails exactly when there are no examples; otherwise lies in [0, 100], is 0 exactly when nothing is wrong and 100 exactly when nothing is right |
| Evaluate.LabelErrorRate | task1/evaluation/evaluate.py:35 | fails exactly when the gold length is 0; otherwise non-negative and 0 exactly when there are no edits |
| Evaluate.Rates | task1/evaluation/evaluate.py:34-35 | succeeds when both divisions do; when both would fail, the WER error is the one raised |
| Evaluate.EvaluateFile | task1/evaluation/evaluate.py:16-35 | the loop and the two divisions give the file's reference report |
| Evaluate.CorrectCountsExactMatches | task1/evaluation/evaluate.py:28-31 | the zero-edit examples are exactly those whose hypothesis equals the gold |
| Evaluate.LengthCountsGoldLabels | task1/evaluation/evaluate.py:33 | `total_length` is the number of gold labels, whatever the hypotheses |
| Evaluate.GoldLabelsZero | task1/evaluation/evaluate.py:35 | there are no gold labels exactly when every gold sequence is empty |
| Evaluate.ExactMatchesAll | task1/evaluation/evaluate.py:28-31 | every example is an exact match exactly when every hypothesis equals its gold |
| Evaluate.NoEditsIffAllCorrect | task1/evaluation/evaluate.py:32 | the total edit count is 0 exactly when every example is correct |
| Evaluate.FileReportMalformed | task1/evaluation/evallib.py:53 | a file fails on a line exactly when some line has no tab |
| Evaluate.FileReportDivisions | task1/evaluation/evaluate.py:34-35 | once every line parses: an empty file fails the WER division, a file whose gold sequences are all empty fails the LER division, and otherwise the report succeeds |
| Evaluate.CountedErrors | task1/evaluation/evaluate.py:34-35 | which division fails, in terms of the number of scores and their gold lengths |
| Evaluate.CountedFormulas | task1/evaluation/evaluate.py:34-35 | WER is the percentage of non-zero scores and LER is edits per hundred gold labels |
| Evaluate.ReportDenominators | task1/evaluation/evaluate.py:34-35 | the report succeeds exactly when there is an example and a gold label |
| Evaluate.ReportFormulas | task1/evaluation/evaluate.py:26-35 | WER is the percentage of pairs whose hypothesis differs from the gold; LER is total edits over gold labels, times 100 |
| Evaluate.WerZeroIffAllCorrect | task1/evaluation/evaluate.py:28-34 | WER is 0 exactly when every hypothesis equals its gold |
| Evaluate.LerZeroIffAllCorrect | task1/evaluation/evaluate.py:32-35 | LER is 0 exactly when every hypothesis equals its gold |
| EvaluateAll.EvaluateFiles | task1/evaluation/evaluate_all.py:17-45 | the per-file loop with fresh counters and the two means give the reference summary; the first failing file's error stops the run |
| EvaluateAll.Wers | task1/evaluation/evaluate_all.py:40 | one WER per report, in order |
| EvaluateAll.Lers | task1/evaluation/evaluate_all.py:41 | one LER per report, in order |
| EvaluateAll.SummaryFacts | task1/evaluation/evaluate_all.py:20-44 | one entry per file in argument order, each the single-file figure of that file alone; every WER in [0, 100]; every LER non-negative; the macro figures are the means |
| EvaluateAll.Mean | task1/evaluation/evaluate_all.py:43-44 | the mean times the number of values is their sum |
| EvaluateAll.MeanAtLeast | task1/evaluation/evaluate_all.py:43-44 | the mean is at least any lower bound of the values |
| EvaluateAll.MeanAtMost | task1/evaluation/evaluate_all.py:43-44 | the mean is at most any upper bound of the values |
| EvaluateAll.MacroBounds | task1/evaluation/evaluate_all.py:43-44 | the macro WER lies in [0, 100] and the macro LER is non-negative |
| EvaluateAll.SummarizeSucceeds | task1/evaluation/evaluate_all.py:20-41 | the run succeeds exactly when every file succeeds on its own |
| Automaton.TotalArcsAddArc | task1/baselines/fst/align.py:171 | adding one arc to one state adds one to the total arc count |
| Automaton.TotalArcsAddState | task1/baselines/fst/align.py:164 | a new state does not change the arc count |
| Automaton.TotalArcsBounds | task1/baselines/fst/align.py:177-179 | the total bounds every state's own arc count and is 0 exactly when no state has an arc |
| Automaton.Fst.constructor | task1/baselines/fst/align.py:163 | an empty automaton: no states, no start, no finals |
| Automaton.Fst.AddState | task1/baselines/fst/align.py:164 | the new state is numbered after the others and has no arcs; nothing else changes |
| Automaton.Fst.SetStart | task1/baselines/fst/align.py:165 | only the start state changes |
| Automaton.Fst.AddArc | task1/baselines/fst/align.py:171 | the arc is appended to that state's arcs only |
| Automaton.Fst.SetFinal | task1/baselines/fst/align.py:172 | only that state's final weight changes |
| Align.Lower | task1/baselines/fst/align.py:76 | each character is lowered, the length is kept |
| Align.StrToBool | task1/baselines/fst/align.py:74-81 | true exactly for "true"/"1" and false exactly for "false"/"0", ignoring case; any other text is an error carrying the lowered value |
| Align.LowerIdempotent | task1/baselines/fst/align.py:76 | lowering twice is lowering once |
| Align.StrToBoolIgnoresCase | task1/baselines/fst/align.py:76-80 | the parse of a value is the parse of its lowered form |
| Align.StrToBoolOfPythonBools | task1/baselines/fst/align.py:76-80 | "True" and "False" parse to true and false |
| Align.LabelSet.Add | task1/baselines/fst/align.py:168 | the set gains the label |
| Align.LabelSet.Update | task1/baselines/fst/align.py:205 | the set gains every label of the list |
| Align.LabelUnion | task1/baselines/fst/align.py:161-174 | epsilon adds 0 to the caller's set; the automaton has two states, start 0, final 1 with weight one, and one arc per label from 0 to 1 reading and writing that label, so `_narcs` of it is the number of labels; `verify` fails exactly when some label is negative |
| Align.UnionArcs | task1/baselines/fst/align.py:170-171 | after the loop every label has its arc |
| Align.LabelUnionVerifies | task1/baselines/fst/align.py:173 | a label-union automaton passes `verify` exactly when its labels are non-negative |
| Align.LabelUnionArcCount | task1/baselines/fst/align.py:177-179 | the arc count of a label-union automaton is the number of labels |
| Align.Narcs | task1/baselines/fst/align.py:177-179 | no state has more arcs than the count, and the count is 0 exactly when no state has an arc |
| Align.Key | task1/baselines/fst/align.py:199-200 | the key has at least eight characters, all lower-case hexadecimal digits, and reads back as the line number |
| Align.KeyInjective | task1/baselines/fst/align.py:199-200 | different line numbers get different keys |
| Align.KeyOrder | task1/baselines/fst/align.py:199-200 | below 16^8 lines, keys have 8 digits and their string order is line order |
| Align.SplitEntry | task1/baselines/fst/align.py:201 | no tab after right-stripping is an error; otherwise the grapheme field is the text before the first tab, the phoneme field everything after it, and nothing trails in whitespace |
| Align.Numbered | task1/baselines/fst/align.py:199 | line k gets number k + 1 |
| Align.GraphemeLabelsMembers | task1/baselines/fst/align.py:205 | a label is in the grapheme set exactly when some line's grapheme acceptor has it |
| Align.PhonemeLabelsMembers | task1/baselines/fst/align.py:208 | a label is in the phoneme set exactly when some line's phoneme acceptor has it |
| Align.GraphemeArchive | task1/baselines/fst/align.py:206 | one archive entry per line: its key and its grapheme field |
| Align.PhonemeArchive | task1/baselines/fst/align.py:209 | one archive entry per line: its key and its phoneme field |
| Align.CompileLineFacts | task1/baselines/fst/align.py:200-209 | a compiled line carries its key, its two fields and their labels |
| Align.EntriesAt | task1/baselines/fst/align.py:199-209 | entry k is line k + 1 compiled |
| Align.EntryKey | task1/baselines/fst/align.py:199-200 | entry k has the key of line number k + 1 |
| Align.KeysIncrease | task1/baselines/fst/align.py:199-200 | keys numbered from 1 are strictly increasing as strings |
| Align.EntriesKeysIncrease | task1/baselines/fst/align.py:199-200 | the archive keys are written in strictly increasing string order |
| Align.EntriesMalformed | task1/baselines/fst/align.py:201 | a line without a tab stops stage one with an error, once the earlier lines compiled |
| Align.EntriesStep | task1/baselines/fst/align.py:204-209 | one more line appends to both archives and adds its labels to both sets |
| Align.LexiconCovering | task1/baselines/fst/align.py:183-215 | errors of the first failing line surface; an empty file is an error; otherwise the archives hold every line and the two label unions are built over the collected labels |
| AlignTraining.SlotMembers | task1/baselines/fst/align.py:285-298 | each option is present exactly when its value is truthy, and carries that value |
| AlignTraining.SlotsFacts | task1/baselines/fst/align.py:284-298 | the list holds exactly the requested options, in strictly increasing fixed order |
| AlignTraining.TrainOpts | task1/baselines/fst/align.py:284-298 | the appended list holds exactly the options whose value is truthy, in the order batch size, delta, cache gc, cache gc limit, learning rate, maximum iterations |
| AlignTraining.RankSortedUnique | task1/baselines/fst/align.py:284-298 | two order-sorted option lists with the same options are equal, so the list is determined |
| AlignTraining.JoinInjective | task1/baselines/fst/align.py:104-108 | joining relative names onto one directory is injective |
| AlignTraining.SeedNameInjective | task1/baselines/fst/align.py:230-245 | per-seed file names agree only for the same prefix and seed |
| AlignTraining.SeedNameNotWorkspace | task1/baselines/fst/align.py:230-245 | a per-seed name is none of the aligner's own file names |
| AlignTraining.Starts | task1/baselines/fst/align.py:300-314 | a size outside 0..32766 is a sampling error; otherwise trial k has index k + 1, the k-th sampled seed, the shared paths and the option list |
| AlignTraining.StartsCollisionFree | task1/baselines/fst/align.py:300-314 | indices run 1..R, seeds are distinct in 1..32766, and no two trials share a channel or trained file, nor with the aligner's files |
| AlignTraining.SeedPathsDiffer | task1/baselines/fst/align.py:230-245 | different prefix or seed gives a different path |
| AlignTraining.SeedPathNotWorkspace | task1/baselines/fst/align.py:230-245 | a per-seed path is none of the aligner's working files |
| AlignTraining.ChannelPath | task1/baselines/fst/align.py:229-231 | a trial's randomized channel model is never its trained model nor one of the aligner's working files |
| AlignTraining.TrainedPath | task1/baselines/fst/align.py:243-245 | a trial's trained model is never one of the aligner's working files |
| AlignTraining.RunStart | task1/baselines/fst/align.py:226-268 | a trial gives its trained-model path and its likelihood, or fails with the trainer |
| AlignTraining.FirstMin | task1/baselines/fst/align.py:322 | no result beats the chosen one, and it beats every earlier result |
| AlignTraining.FirstMinUnique | task1/baselines/fst/align.py:322 | only one index has both properties |
| AlignTraining.BestOf | task1/baselines/fst/align.py:317-322 | with no trials the error is the empty `min`, any other error is a failed trial; a result means there were trials, all succeeded, and none has a smaller likelihood than the result |
| AlignTraining.BestOfFacts | task1/baselines/fst/align.py:317-322 | a failed trial fails the stage; no trials is an error; otherwise the result is the trained model and likelihood of the first best trial |
| AlignTraining.AlignmentFacts | task1/baselines/fst/align.py:284-322 | a bad trial count is a sampling error; otherwise the stage is the best of exactly R sampled trials |
| AlignTraining.Alignments | task1/baselines/fst/align.py:270-322 | the option list, the trial table, the ordered runs and the minimum give the reference result |
| Wrappers.Collect | task1/evaluation/evaluate_all.py:20-41 | succeeds exactly when every element does, with the results in order; otherwise fails with the error of the first element that fails |
| Wrappers.CollectFirstFailure | task1/evaluation/evaluate_all.py:20-41 | when every earlier element succeeds, the first failing element decides the error |

## Left out

- pynini and pywrapfst internals are not modelled. This covers `accep` (a
  tokenizer parameter), `cross(...).closure().optimize()`, the
  `num_states() == 1` check, `convert`, the FAR writers and readers, and
  `_encode` with its `EncodeMapper`. They are foreign library code.
- The trainer stands in for the `baumwelchrandomize`/`baumwelchtrain`
  subprocesses and for the stderr likelihood parsing. It is a function that
  gives a final likelihood or nothing. No likelihood line leaves the
  likelihood infinite, and the trainer may return that. Whether
  `baumwelchtrain` succeeded is not visible to the model, as it is not to
  the script: a trial whose training failed without an unmatched stderr line
  counts as a success, and the best of the other trials is chosen without
  an error. `baumwelchdecode`
  and `shutil.move` are left out because they are external effects.
- `random.seed` and `random.sample` are left out: the sample is an input.
  What `random.sample` guarantees is stated as a precondition.
- `multiprocessing.Pool` is modelled as a sequential, order-preserving map.
  `pool.starmap` turns the reader into a list before scoring, and the model
  does the same: a line without a tab fails the file before any score.
  When several trials fail, which failure `pool.map` re-raises depends on
  timing, so the model reports `TrialFailure` without saying which trial.
- `tempfile`, `__del__`, `argparse` (except that at least one evaluation
  file is required), `logging`, file opening and `print` with `.2f`
  rounding are left out. Files are given as their lines.
- AlignTraining.TrainOpts: the list holds the option values, not the
  `--name=value` text (the same for `AlignTraining.Slots`). Python's rendering of floats is not modelled.
- Align.Lower: lowers only ASCII letters. Python's full Unicode lowering is
  not modelled. This is enough for the four accepted words.
- Evaluate.Percent: uses exact real arithmetic, as does `EvaluateAll.Mean`.
  Floating-point rounding of the percentages and means is not modelled.
- Align.LexiconCovering: in Python an empty file fails at the logging call
  after the loop, because `linenum` is never bound. The model returns
  `EmptyCorpus` there. The FAR files written before that point are not modelled.
- `task1/baselines/fst/predict.py` is not part of this model. It is a thin
  wrapper over a rewrite library.
- `Score`, `Evaluate` and `EvaluateAll` use the unbounded distance
  `EvalLib.Distance`, the corrected form of the finding below. The method
  `EvalLib.EditDistance` keeps the `uint8` table as written.

## Findings

| source | as written | input that shows it | evidently intended | confidence | as-written member | corrected member |
|---|---|---|---|---|---|---|
| task1/evaluation/evallib.py:22-34 | the table is `numpy.uint8`, so `min(c1, c2, c3) + 1` wraps from 255 to 0 | `edit_distance(["a"] * 255, ["b"] * 256)` returns 0, so the two different sequences would count as a correct prediction | the edit distance on unbounded integers, which is 0 only for equal sequences (here 256) | not executed | EvalLib.WrappedDistanceCounterexample | EvalLib.DistanceZeroIffEqual |

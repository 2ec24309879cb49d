# grading_app: curve-based grade boundaries, modelled in Dafny

grading_app grades a class on a curve. Each student has a mark. The teacher
gives an ordered list of grade labels, best first (for example `A, B, F`),
and picks a "centric" label that should be the most frequent grade.
`compute_grade_boundaries` works out how many students each label should
receive:

- it builds a tent-shaped weight profile that peaks at the centric label;
- it turns the weights into floored shares of the roster;
- the last label absorbs the rounding leftover.

It then walks the marks in descending order. Each label consumes its count
of students, and the label's minimum mark is the last mark in its window.

Every student is graded against the resulting map: a student gets the first
label, in map order, whose minimum their mark reaches, and otherwise the
last label. A teacher may instead supply a manual map. `validate_boundaries`
checks that such a map's minimums fall strictly along the labels.
`clean_data` drops rows whose marks are not numbers.

The model has eight modules:

- `Wrappers` — the `Option` and `Result` types.
- `Shares` — the weights and the counts.
- `Sorting` — the descending sort.
- `BoundaryMap` — the insertion-ordered dictionary and the first-match grader.
- `Windows` — the threshold walk over any counts that fit the roster the way
  the drift-corrected counts do. For such counts the guard
  `start_idx < total_students` holds at every write (`Windows.NoClamp`).
- `Allocator` — the imperative `compute_grade_boundaries`:
  - `RoundedCounts` keeps the counts array and its in-place drift correction;
  - `WalkWindows` is the `for` loop that fills the map;
  - `ComputeGradeBoundaries` covers both branches and the grading.
- `Validator` — `validate_boundaries`, with its `KeyError` as an `Err`.
- `Cleaner` — `clean_data` as a filter over already-converted marks.

Marks are `real`. The counts are computed exactly as `w[i] * N / S` with
floor division.

The preconditions of `compute_grade_boundaries` (`Allocator.ValidLabels`)
are:

- at least two labels, which the application guarantees (`app.py:115`);
- the centric label is one of the labels, which the application guarantees
  by picking it from them (`app.py:119`);
- no label repeats. This is a condition of the model only: the application
  accepts `A,A,F` (`app.py:111`). See "Left out".

The manual map the application builds has one entry per label, in label
order, with the last label at 0 (`app.py:141-147`). The validator lemmas
that talk about map positions assume that shape (`Keys(b) == labels`).

In the worked example (labels `A, B, F`, centric `B`, marks 100 down to 10)
label `B`'s window ends at 7, so its minimum is the mark at position
`end - 1 = 6`, which is 40 (`Allocator.WorkedExample`).

When the first label's count is 0, `end_idx - 1` is `-1`. `iloc[-1]` then
reads the lowest mark, so the best label's minimum becomes the worst mark
and every student is graded with the first label. This happens with labels
`A, B, F`, centric `B` and three students. The model keeps this behaviour
(`Windows.ILoc`) and proves it (`Windows.EmptyFirstWindowGradesAllFirst`,
`Allocator.WrapExample`, `Allocator.WrapGrades`).

## Model

| member | source | states |
|---|---|---|
| Shares.MaxOf | utils.py:14 | `np.max`: the result bounds every element and is one of them |
| Shares.Weights | utils.py:13-14 | one weight per label, each at least 1, equal to `maxdist + 1` minus its distance from the centric index |
| Shares.Distances | utils.py:13 | one distance per label, the absolute distance from the centric index, `i - c` or `c - i`, never negative |
| Shares.MaxOfDistances | utils.py:13-14 | the largest distance from the centric index is the distance of the farther end |
| Shares.WeightProfile | utils.py:13-14 | the centric label has the largest weight `maxdist + 1`; weights drop by exactly one per step away from it; an end label has weight 1 |
| Shares.FloorShares | utils.py:15-17 | one non-negative floored share per weight |
| Shares.FloorShareIsFloor | utils.py:15-17 | each share `f` is the floor of `w[i] * N / S`: `f * S <= w[i] * N < (f + 1) * S` |
| Shares.FloorSumBound | utils.py:15-17 | any prefix of the floored shares, scaled by `S`, stays within `N` times the prefix of the weights |
| Shares.FloorTotals | utils.py:17-18 | the floors never add up to more than `N`; with `N >= 1` the floors of all labels but the last add up to less than `N` |
| Shares.GradeCounts | utils.py:17-18 | after drift correction the counts are non-negative and sum exactly to `N`; with `N >= 1` the last count is at least 1 and the others add up to less than `N` |
| Shares.DriftToLast | utils.py:18 | the leftover `N - sum(floors)` is never negative and lands entirely on the last label; the other counts are the floors |
| Sorting.InsertDesc | utils.py:20 | inserting into a descending column keeps it descending and adds exactly that mark |
| Sorting.SortDesc | utils.py:20 | the sorted column is descending and a permutation of the marks |
| Sorting.SortedUnique | utils.py:20 | two descending columns holding the same marks are equal, so sort stability cannot matter |
| Sorting.SortDescOrderFree | utils.py:20 | the sort depends only on the multiset of marks |
| BoundaryMap.KeyIndex | utils.py:39 | the position of the first pair carrying the key |
| BoundaryMap.Lookup | utils.py:39 | `b[key]` exists exactly when the key is in the map |
| BoundaryMap.LookupFirst | utils.py:39 | the first pair carrying the key decides its value |
| BoundaryMap.LookupAt | utils.py:39 | with distinct keys, every pair is found by its own key |
| BoundaryMap.Put | utils.py:29-32 | a new key is appended at the end; an existing key keeps its place and the key order is unchanged |
| BoundaryMap.PutLookup | utils.py:29-32 | after `b[key] = v`, `b[key]` is `v` and every other key reads as before |
| BoundaryMap.Assign | utils.py:34 | a grade is always a key of the map or the fallback label |
| BoundaryMap.GradeColumn | utils.py:34 | one grade per row, each computed from that row's mark alone |
| BoundaryMap.GradesWithin | utils.py:34 | when every key and the fallback are labels, every grade is a label |
| BoundaryMap.MatchIndex | utils.py:34 | the first map position whose minimum the mark reaches, or the map length when there is none |
| BoundaryMap.AssignAtMatch | utils.py:34 | the grade is the label at that first match, or the fallback past the end |
| BoundaryMap.AssignFirstMatch | utils.py:34 | the first pair whose minimum is at most the mark decides the grade, even when later minimums are lower |
| BoundaryMap.AssignNoMatch | utils.py:34 | a mark below every minimum gets the fallback (the last label) |
| BoundaryMap.MatchIndexMonotone | utils.py:34 | a higher mark never stops later in the scan |
| Windows.ILoc | utils.py:29 | `iloc[k]` with Python's negative positions: the mark at `(k + len) % len`, always one of the marks |
| Windows.End | utils.py:25-27 | a window end is the cumulative count clamped to the roster size |
| Windows.WindowMark | utils.py:29 | the mark read for label `i`'s window, always one of the sorted marks |
| Windows.Walk | utils.py:24-30 | the loop writes one pair per label but the last, in label order, with that label's window mark |
| Windows.Thresholds | utils.py:21-32 | the automatic map ends with the last label at 0; it holds one pair per label, or only that pair on an empty roster |
| Windows.NoClamp | utils.py:25-28 | with at least one student, every window of a non-last label starts and ends inside the roster, so the clamp never fires |
| Windows.WindowMarkAt | utils.py:25-29 | without the clamp, a label's mark sits at its cumulative count minus one |
| Windows.WindowMinimum | utils.py:24-30 | a non-empty window's mark is the lowest mark it consumed |
| Windows.WindowMonotone | utils.py:24-29 | when the first count is at least 1, window marks never increase along the labels |
| Windows.EmptyFirstWindow | utils.py:29 | an empty first window reads `iloc[-1]`, the lowest mark |
| Windows.ThresholdKeys | utils.py:24-32 | with at least one student every label gets a key, in label order; an empty roster maps only the last label |
| Windows.ThresholdAt | utils.py:24-32 | label `i`'s minimum is the mark at position `end_i - 1` of the descending sort, with `0 <= end_i < N` |
| Windows.ThresholdWindowMinimum | utils.py:24-30 | a non-empty label window's minimum is its lowest consumed mark |
| Windows.ThresholdsDescending | utils.py:24-30 | when the first count is at least 1, the automatic minimums never increase along the label order |
| Windows.TopMarksGetFirstLabel | utils.py:24-34 | the best `counts[0]` marks all receive the first label |
| Windows.EmptyFirstWindowGradesAllFirst | utils.py:25-34 | when the first count is 0, the first label's minimum is the lowest mark and every student gets the first label |
| Windows.ThresholdGradesAreLabels | utils.py:32-34 | every grade handed out against the automatic map is one of the labels |
| Allocator.ValidLabels | app.py:115-119 | the labels the model accepts: at least two, the centric one among them, none repeated; the best grade is then never the catch-all one |
| Allocator.IndexOf | utils.py:8 | `list.index`: the first position of the centric label |
| Allocator.Counts | utils.py:13-18 | the counts for the labels and the roster size, one per label, fitting the roster |
| Allocator.AutoBoundaries | utils.py:12-32 | the automatic map has one pair per label, or only the last label when there are no students |
| Allocator.RoundedCounts | utils.py:17-18 | the counts array, after its in-place drift bump, holds the drift-corrected counts |
| Allocator.WalkWindows | utils.py:21-30 | the loop's map equals the walk specification; its invariants are the clamped start and the map built so far |
| Allocator.WalkStep | utils.py:25-30 | one loop round: the clamped end is window `i`'s end, the start lies inside the roster, and the write appends label `i` |
| Allocator.FloorWrite | utils.py:32 | writing the last label at 0 after the walk appends the floor pair and gives the automatic map |
| Allocator.AutoBranch | utils.py:12-32 | the automatic branch builds the automatic map |
| Allocator.ComputeGradeBoundaries | utils.py:5-35 | a non-empty manual map is returned unchanged; an empty one falls through to the automatic map; every row is graded against the chosen map |
| Allocator.AutoOrderFree | utils.py:20-32 | reordering the rows changes no automatic minimum |
| Allocator.AutoThresholdAt | utils.py:20-32 | label `i`'s automatic minimum is the mark at position `end_i - 1` of the descending sort, `end_i` being the cumulative target count, with `0 <= end_i < N` |
| Allocator.AutoGradesAreLabels | utils.py:32-34 | in automatic mode every row's grade is one of the labels |
| Allocator.ExampleCounts | utils.py:13-18 | labels `A, B, F`, centric `B`, ten students give counts 2, 5, 3 |
| Allocator.ExampleSorted | utils.py:20 | the example marks 100 down to 10 are their own descending sort |
| Allocator.ExampleThresholds | utils.py:24-32 | the walk over those counts gives `A` 90, `B` 40, `F` 0 |
| Allocator.WorkedExample | utils.py:12-32 | the automatic map for the example is `A` 90, `B` 40, `F` 0 |
| Allocator.ExampleGrades | utils.py:34 | against that map, 95, 50 and 5 are graded `A`, `B` and `F` |
| Allocator.WrapCounts | utils.py:13-18 | three students give counts 0, 1, 2 |
| Allocator.WrapThresholds | utils.py:24-32 | the walk over those counts gives `A` 10 (read at `iloc[-1]`), `B` 30, `F` 0 |
| Allocator.WrapExample | utils.py:24-32 | the automatic map for marks 30, 20, 10 is `A` 10, `B` 30, `F` 0 |
| Allocator.WrapGrades | utils.py:34 | against that map all three students are graded `A` |
| Validator.Init | utils.py:39 | `grade_labels[:-1]`: putting the last label back gives the labels again; no labels give no labels |
| Validator.BoundaryValues | utils.py:39 | the minimums in label order exactly when every label is in the map, each one the map's value; otherwise a missing label |
| Validator.Descending | utils.py:40 | true exactly when every adjacent pair falls strictly |
| Validator.ValidateBoundaries | utils.py:37-40 | a verdict exactly when every label but the last is in the map; otherwise `Err` with a label missing from it |
| Validator.FirstMissing | utils.py:39 | the comprehension fails at the first grade missing from the map and names that grade |
| Validator.ValidateFirstMissing | utils.py:37-39 | `KeyError` names the first label, among all but the last, that the map lacks |
| Validator.ValidateMeans | utils.py:37-40 | with those labels present, true exactly when each label's minimum is above the next one's, both directions |
| Validator.DescendingTransitive | utils.py:40 | strict fall between neighbours gives strict fall between any two positions |
| Validator.TwoLabelsValid | utils.py:39-40 | with exactly two labels, the verdict is always true |
| Validator.LastLabelIgnored | utils.py:39 | the last label's minimum is never read: changing it changes no verdict |
| Validator.BoundaryValuesAgree | utils.py:39 | maps that agree on the labels read give the same values |
| Validator.ValidatedFalls | utils.py:37-40 | a validated map in label order has strictly falling minimums before the last label |
| Validator.BelowEarlier | utils.py:37-40 | against a validated map, a mark below one minimum is below every earlier one |
| Validator.AssignIsLabelAt | utils.py:34 | in a map in label order, a grade names the position where the scan stopped |
| Validator.FirstLabelInterval | utils.py:34 | the first label goes exactly to the marks at or above its minimum |
| Validator.IntervalBetween | utils.py:34 | in a map in label order, when a mark below `b[k]` is below every earlier minimum, label `k + 1` goes exactly to the marks in `[b[k+1], b[k])` |
| Validator.ValidatedInterval | utils.py:34-40 | against a validated map, a middle label goes exactly to the marks in `[b[k+1], b[k])` |
| Validator.LastIntervalAt | utils.py:34-40 | against a validated map, the last label goes exactly to the marks below the previous label's minimum |
| Validator.ValidatedLastInterval | utils.py:34-40 | the same, stated for the label before the last |
| Validator.NonDescendingUnreachable | utils.py:34-40 | when a label's minimum is not above the next one's, the next label (if not the last) is never handed out |
| Validator.ValidExample | utils.py:37-40 | minimums 90, 30, 0 over `A, B, F` validate |
| Validator.TieExample | utils.py:37-40 | a tie of `A` and `B` at 30 is rejected |
| Validator.MissingKeyExample | utils.py:37-40 | a map holding only `A` raises for `B` |
| Cleaner.Valid | utils.py:58 | the surviving marks are exactly the converted ones and are no more than the rows |
| Cleaner.InvalidCount | utils.py:55-56 | the invalid rows and the survivors add up to the rows; the count is 0 exactly when every row converted |
| Cleaner.CleanData | utils.py:52-59 | the cleaned marks and the number removed, with both properties above |
| Cleaner.Parsed | utils.py:54 | every mark as a successful conversion |
| Cleaner.CleanAppend | utils.py:58 | cleaning keeps the row order: a concatenation is cleaned part by part |
| Cleaner.CleanParsed | utils.py:52-59 | a roster of valid marks comes back unchanged, with nothing reported |
| Cleaner.CleanIdempotent | utils.py:52-59 | cleaning the cleaned marks again removes nothing |
| Cleaner.CleanExample | utils.py:52-59 | rows 55, invalid, 70, invalid give marks 55, 70 and two rows reported |

## Left out

- Floating point: the normalised distribution `w / sum(w)` and its float product with `N` (utils.py:15-17) become the exact floor `w[i] * N / S`. numpy's float product can land just below an exact integer and floor one lower; the model does not capture that.
- numpy's `int64` counts cannot overflow for any realistic roster. The model's integers are unbounded.
- The pandas DataFrame is a sequence of marks. The `grade` column the source writes into the caller's frame is a returned sequence of grades, so aliasing of the caller's frame is not modelled.
- `sort_values` is modelled by an insertion sort. pandas does not promise a stable order, but `Sorting.SortedUnique` shows that every descending permutation of the marks is the same sequence.
- Allocator.ValidLabels: calls with fewer than two labels, with a centric label that is not one of them (`list.index` would raise `ValueError`), or with repeated labels are excluded. The application refuses the first and cannot produce the second. It does accept repeated labels such as `A,A,F` (`app.py:111`). These would make the dictionary overwrite an earlier pair and `list.index` pick the first copy, and the model does not cover them.
- Both a missing manual map (`None`) and an empty dictionary are falsy: both are the empty map. A manual map's values are taken to be marks.
- Validator.ValidateBoundaries: the source raises `KeyError` and does not return. The model returns `Err` with the label instead. The function's own contract says only that the label is missing; that it is the first missing one is `Validator.ValidateFirstMissing`.
- `clean_data`'s numeric conversion (`pd.to_numeric(..., errors='coerce')`) is a pandas call: each row arrives already converted, as `Some(mark)` or `None` for NaN. The warning `print` is output only; the model returns the number it would report.
- `plot_grade_distribution` (plotting) and all of `app.py` (user interface, authentication, storage, file upload, statistics) are not part of this model. Only the calling conventions above are taken from `app.py`.

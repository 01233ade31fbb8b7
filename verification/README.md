# Sorting coursework: a verified model

This project models, in Dafny, the sorting core of a small Python
coursework repository made of three programs:

- **The exam application** (`PRELIM-EXAM/src`) is a window that loads a CSV
  file of people (`ID`, `FirstName`, `LastName`). It sorts the first N
  records by one column with bubble sort, insertion sort or merge sort. The
  model covers the three record sorts in `sorting_algorithms.py` and the
  decisions `main.py` makes around them:
  - loading and validating the CSV and coercing the `ID` column;
  - reading the requested size N, and the live feedback on that field;
  - when the warning for a quadratic sort on a large input is shown;
  - the thread that copies and sorts the first N records.
- **The integer sorter** (`Alg.Sorter.py`) reads a file of integers and
  splits numbers that were glued together. It sorts them, ascending or
  descending, with a bubble, insertion or merge sort that the user can
  cancel, and formats the result nine to a line.
- **The lab program** (`PRELIM-LAB-WORK-2/SimpleBubbleSort.py`) loads one
  integer per line, bubble-sorts them and prints a grid.

The modules follow the programs:

| module | models |
|---|---|
| `Seqs` | flattening, fixed-size chunks, counting |
| `PyStr` | Python's `str.strip`, `split()`, `join`, `rjust` and `lower` |
| `PyInt` | Python's `int(s)` and `str(n)` in base 10 |
| `Records` | records, key values, and what sorted and stable mean for them |
| `KeyedSorting` | `sorting_algorithms.py` |
| `IntOrder` | sortedness of integer lists, and `merge_sort_recursive_simple` as the reference sort |
| `IntSorter` | the cancellable sorts of `Alg.Sorter.py` |
| `DatasetReader` | `read_dataset` |
| `OutputFormat` | `SorterApp.format_output` |
| `SimpleBubble` | `SimpleBubbleSort.py` |
| `ExamApp` | the decisions in `main.py` |

Python's list sorts rearrange the list they are given. Here lists are
values, and every sort returns the rearranged contents.

Key values are `Num(int)` or `Text(string)`, because an ID that does not
parse stays text. Python raises `TypeError` when it compares a number with
a string. For two or more records whose keys mix the kinds, each of the
three keyed sorts makes such a comparison:
- bubble sort, in its first pass, compares the running maximum with the
  first record of the other kind;
- insertion sort compares the first record of the other kind with its
  predecessor;
- merge sort compares the fronts of the two halves at the merge where the
  kinds first meet.

So the sorts require `UniformKeys`, and the caller models the mixed case as
the error it is.

Cancellation is a `threading.Event` that each sort polls at fixed points.
It is modelled as an oracle `cancelled: nat -> bool` that answers the
`q`-th poll of a run. `Observed(cancelled, from, to, stopped)` says that
the polls `from .. to - 1` were made, and that the run stopped exactly at
the first poll that saw the event set.

Every sort is tied to one reference result:
- `KeyedSorting.MergeSort` for records, through `Records.StableSortUnique`;
- `IntOrder.MergeSortSimple` for integers, through
  `IntOrder.SortedIntsUnique`.

So each bubble and insertion sort is proved to return exactly what merge
sort returns: the record sorts because the stable sort is unique, and the
integer sorts because the sorted rearrangement is.

## Model

| member | source | states |
|---|---|---|
| Seqs.Chunks | Alg.Sorter.py:52-55 | the slices `val[i:i+k]` for `i` in `range(0, len, k)` concatenate back to the input; every slice but the last has exactly `k` items, and the last has at most `k` |
| Seqs.ChunkCount | Alg.Sorter.py:52 | a non-empty input of length `n` cuts into `ceil(n / k)` slices |
| PyStr.StripSpec | Alg.Sorter.py:20 | `strip()` returns a contiguous middle part of the string, whose removed ends are whitespace and whose own ends are not |
| PyStr.StripIdempotent | Alg.Sorter.py:20 | stripping twice is stripping once |
| PyStr.Words | Alg.Sorter.py:24 | `split()` returns non-empty whitespace-free words which, concatenated, are the string's non-whitespace characters |
| PyStr.WordsOfJoin | Alg.Sorter.py:24 | splitting words joined by single spaces gives the words back |
| PyStr.WordsSplitAtSpace | Alg.Sorter.py:24 | `split()` takes maximal runs: the words of text cut at a whitespace character are the words before it followed by the words after it |
| PyStr.WordsOfSpace | Alg.Sorter.py:24 | all-whitespace text has no words |
| PyStr.RJust | Alg.Sorter.py:720 | `rjust(w)` pads on the left with spaces to width `w`, and keeps the text as its suffix |
| PyInt.Parse | Alg.Sorter.py:57 | `int(s)` succeeds exactly when no ASCII information separator lies in the edge whitespace and the stripped text is an optional sign followed by digits, where single underscores may separate digits |
| PyInt.ParseShow | Alg.Sorter.py:55-57 | `int(str(n)) == n` for every integer |
| PyInt.ParseIgnoresStrip | PRELIM-LAB-WORK-2/SimpleBubbleSort.py:10 | `int(s) == int(s.strip())` unless an information separator lies in the stripped whitespace, in which case `int(s)` fails |
| PyInt.ParseLeadingSeparator | Alg.Sorter.py:57 | `int` rejects text that starts with an information separator, even after a leading space |
| PyInt.ShowFitsBetween | PRELIM-LAB-WORK-2/SimpleBubbleSort.py:55-58 | a number between `lo` and `hi` prints no longer than the longer of `str(lo)` and `str(hi)` |
| Records.LtStrictTotalOrder | PRELIM-EXAM/src/sorting_algorithms.py:17-23 | the `<` the sorts use on key values is irreflexive, asymmetric, transitive and total |
| Records.StableSortUnique | PRELIM-EXAM/src/sorting_algorithms.py:68-85 | two sorted rearrangements of the same records that both keep every key group in its original order are equal |
| KeyedSorting.Merge | PRELIM-EXAM/src/sorting_algorithms.py:87-114 | merging two sorted lists gives a sorted list of exactly their records, in which every key group is the left group followed by the right group |
| KeyedSorting.MergeSort | PRELIM-EXAM/src/sorting_algorithms.py:68-85 | the result is a sorted rearrangement of the input that keeps every key group in input order |
| KeyedSorting.MergeSortShort | PRELIM-EXAM/src/sorting_algorithms.py:78-79 | lists of at most one record come back unchanged |
| KeyedSorting.BubblePass | PRELIM-EXAM/src/sorting_algorithms.py:13-27 | one pass moves a record that is in order with the whole front into the last front slot, leaves the back alone, keeps key groups in order, and swaps nothing exactly when the front was already in order |
| KeyedSorting.BubblePasses | PRELIM-EXAM/src/sorting_algorithms.py:11-32 | the passes leave a sorted rearrangement that keeps every key group in its order, after at most `n` passes, and stop after one pass on sorted input |
| KeyedSorting.BubbleSort | PRELIM-EXAM/src/sorting_algorithms.py:1-32 | with keys of one kind, the result is a sorted rearrangement of the records that keeps every key group in its original order (so, by `Records.StableSortUnique`, merge sort's result); it makes at most `n` passes, and exactly one on sorted input, which it returns unchanged |
| KeyedSorting.InsertShift | PRELIM-EXAM/src/sorting_algorithms.py:44-65 | the current record moves left past exactly the records it strictly precedes and lands after one it does not |
| KeyedSorting.InsertStep | PRELIM-EXAM/src/sorting_algorithms.py:43-65 | placing record `i` extends the sorted front by one, keeps the multiset, and keeps every key group's order |
| KeyedSorting.InsertionSort | PRELIM-EXAM/src/sorting_algorithms.py:34-66 | with keys of one kind, the result is a sorted rearrangement of the records that keeps every key group in its original order (so, by `Records.StableSortUnique`, merge sort's result) |
| IntOrder.SortedIntsUnique | Alg.Sorter.py:216-244 | two sorted rearrangements of the same numbers are equal |
| IntOrder.MergeInts | Alg.Sorter.py:223-243 | the merge holds every number of both halves, each as often as in them, and nothing else |
| IntOrder.MergeIntsSorted | Alg.Sorter.py:223-243 | merging two sorted lists gives a sorted list |
| IntOrder.MergeSortSimple | Alg.Sorter.py:216-244 | the result is a sorted rearrangement of the input, ascending or descending |
| IntSorter.BubblePass | Alg.Sorter.py:82-96 | a pass of `m` front slots polls after comparisons 0, 1000, 2000, …, so `ceil((m - 1) / 1000)` times if not cancelled, and an event already set stops it at its first poll; if not cancelled, it leaves an element in order with the front in the last front slot, and swaps nothing exactly when the front was in order |
| IntSorter.PassRound | Alg.Sorter.py:75-96 | one round of the pass loop polls once and then makes the strided polls of its pass; if not cancelled it either finds the list sorted or grows the sorted back by one element, keeping the same numbers |
| IntSorter.BubbleSort | Alg.Sorter.py:63-108 | a run stops exactly at the first poll that sees the event; an event set from the start stops a non-empty run at its first poll; a finished run made exactly one poll before each pass plus the strided polls of each pass, and returns merge sort's result; a cancelled one stopped inside the pass after the last one it reported; it reports the corrected progress value once per finished pass |
| IntSorter.BubblePasses | Alg.Sorter.py:75-108 | a run stops exactly at the first poll that sees the event, and an event set from the start stops a non-empty run at its first poll; a finished run made one poll before each pass plus the strided polls of each pass (`BubblePolls`); a cancelled one stopped within the pass after the last one it reported; one that finishes returns the sorted rearrangement and reports once per finished pass |
| IntSorter.ComparisonsDoneBounds | Alg.Sorter.py:71-72 | the comparisons counted after each pass never decrease and reach `n * (n - 1) // 2` after all `n` passes |
| IntSorter.PassProgressAsWritten | Alg.Sorter.py:98-102 | the progress report as written fails, by dividing by zero, exactly for a one-number list |
| IntSorter.PassProgress | Alg.Sorter.py:98-102 | the corrected report lies between 0 and 99.9, agrees with the written one whenever that one is defined, and reports 99.9 for the last pass, which for a one-number list is the only one |
| IntSorter.PassProgressMonotone | Alg.Sorter.py:98-102 | later passes never report less progress |
| IntSorter.InsertShift | Alg.Sorter.py:118-135 | the key shifts past exactly the elements it is strictly before |
| IntSorter.InsertionSort | Alg.Sorter.py:110-144 | one poll before placing each element from the second on, so `n - 1` polls in a finished run, and an event set from the start stops a run of two or more at its first poll; a run that finishes returns merge sort's result; the `k`-th report is the progress after placing element `10 * k`, and a finished run reports once per multiple of ten below `n`, a cancelled one once per multiple of ten it got past |
| IntSorter.InsertProgress | Alg.Sorter.py:137-141 | the value reported after placing element `i` of `n` lies strictly between 0 and 100 |
| IntSorter.InsertProgressMonotone | Alg.Sorter.py:137-141 | elements placed later never report less progress |
| IntSorter.MergeChecked | Alg.Sorter.py:172-200 | the merge loop polls at output slots 0, 1000, 2000, … while both sides have elements, so `ceil(k / 1000)` times over its `k` rounds if not cancelled, and an event already set stops a merge of two non-empty sides at its first poll; if not cancelled it builds exactly the reference merge |
| IntSorter.MergeRounds | Alg.Sorter.py:172-190 | the merge loop runs at least as many rounds as the shorter side has elements and fewer than both sides together, and none when a side is empty |
| IntSorter.MergeRec | Alg.Sorter.py:159-209 | polls on entry and in each merge, and passes cancellation up from either half; an event already set is seen by the poll on entry; a finished run made exactly `MergeRecPolls` polls and is the reference merge sort, an unfinished one no more; without a progress callback no list of two or more finishes |
| IntSorter.MergeHalves | Alg.Sorter.py:162-209 | after the entry poll, a list of two or more is sorted half by half and merged, stopping at the first half that does not finish; a finished run is the reference merge sort after exactly the remaining `MergeRecPolls` polls; without a progress callback none finishes |
| IntSorter.MergeRecPollsAtLeast | Alg.Sorter.py:159-190 | a finished run on `n >= 1` numbers polls at least `2n - 1` times: once per call and at least once per merge |
| IntSorter.MergeSortWrapper | Alg.Sorter.py:147-214 | with neither a callback nor an event it returns the simple merge sort and never polls; otherwise it polls at least once, exactly `MergeRecPolls` times in a finished run and no more in any other, and an event set from the start cancels it at the first poll; it fails exactly when an event but no callback is given for two or more numbers and the run was not cancelled; it is never cancelled without an event |
| IntSorter.QuietNeverStops | Alg.Sorter.py:154 | a run whose event is never set never stops early |
| DatasetReader.CommasToSpaces | Alg.Sorter.py:24 | `replace(',', ' ')` changes every comma to a space and nothing else |
| DatasetReader.LineTokens | Alg.Sorter.py:19-30 | a line's tokens are non-empty and free of commas and spaces; there are none exactly when the line has no other characters; a separated line's tokens concatenate to those characters; any other line is one token |
| DatasetReader.LineTokensOfCommaJoin | Alg.Sorter.py:19-30 | two or more non-empty fields without commas or whitespace, joined by commas, are read back as exactly those fields |
| DatasetReader.TokensOfShown | Alg.Sorter.py:19-30 | a file of printed integers, one per line, yields exactly those lines as tokens |
| DatasetReader.Mode | Alg.Sorter.py:40-41 | `most_common(1)` gives a length that occurs most often, and the first such one to occur |
| DatasetReader.ModeUnique | Alg.Sorter.py:40-41 | that choice is unique |
| DatasetReader.ParsePrefix | Alg.Sorter.py:48-59 | the pieces of one token are converted in order, up to the first that is not an integer |
| DatasetReader.TokenValues | Alg.Sorter.py:48-59 | a token longer than `int(1.5 * t)` is cut into `t`-character pieces converted up to the first bad one; any other token gives its value, or nothing |
| DatasetReader.ReadDataset | Alg.Sorter.py:36-62 | a file with no tokens yields the empty list; otherwise the result is what the tokens give, in order, read with the most common token length (the first seen among equally common ones) as the typical width |
| DatasetReader.ValuesAppend | Alg.Sorter.py:47-60 | tokens are converted independently: the values of two runs of tokens are those of the first followed by those of the second |
| DatasetReader.ReadShown | Alg.Sorter.py:13-61 | reading back printed integers, one per line, gives them back whenever no number is more than 1.5 times as long as another |
| DatasetReader.GluedNumbersSplit | Alg.Sorter.py:43-55 | two or more numbers of one length, glued into one token, are split back into exactly those numbers |
| OutputFormat.MaxWidth | Alg.Sorter.py:713 | the widest `str(num)`: no number is wider, and one is this wide |
| OutputFormat.Cells | Alg.Sorter.py:720 | each number right-justified to the width, in order |
| OutputFormat.Grid | Alg.Sorter.py:709-725 | `ceil(n / 9)` rows of nine cells, the last holding the rest; every cell has the common width, and the rows read in order are the numbers |
| OutputFormat.FormatOutput | Alg.Sorter.py:705-727 | the text is "No data to display" for no data; otherwise it is the grid's rows, each indented and comma-separated, one per line |
| OutputFormat.FormatLoopIsGrid | Alg.Sorter.py:719-725 | the loop that emits a line when it is full or at the last number emits exactly the grid's rows |
| OutputFormat.NewlineCount | Alg.Sorter.py:705-727 | the text has `ceil(n / 9) - 1` newlines |
| SimpleBubble.BlankIsStripEmpty | PRELIM-LAB-WORK-2/SimpleBubbleSort.py:10 | a line is skipped exactly when stripping leaves nothing |
| SimpleBubble.LoadDataset | PRELIM-LAB-WORK-2/SimpleBubbleSort.py:4-17 | if every non-blank line is an integer, the values in order; otherwise, by the `ValueError`, the empty list |
| SimpleBubble.LoadShown | PRELIM-LAB-WORK-2/SimpleBubbleSort.py:10 | loading printed integers, one per line, gives them back |
| SimpleBubble.LoadSkipsBlank | PRELIM-LAB-WORK-2/SimpleBubbleSort.py:10 | a blank line anywhere makes no difference |
| SimpleBubble.Pass | PRELIM-LAB-WORK-2/SimpleBubbleSort.py:30-35 | one pass leaves the front's largest number last, leaves the back alone, and swaps nothing exactly when the front was ascending |
| SimpleBubble.Passes | PRELIM-LAB-WORK-2/SimpleBubbleSort.py:26-41 | the passes leave the ascending rearrangement of the list, after at most `n` passes, and stop after one pass on sorted input |
| SimpleBubble.BubbleSort | PRELIM-LAB-WORK-2/SimpleBubbleSort.py:19-41 | the result is exactly merge sort's, the ascending rearrangement of the list, after at most `n` passes |
| SimpleBubble.MaxOf | PRELIM-LAB-WORK-2/SimpleBubbleSort.py:55 | `max(arr)` is in the list and no element exceeds it |
| SimpleBubble.MinOf | PRELIM-LAB-WORK-2/SimpleBubbleSort.py:56 | `min(arr)` is in the list and no element is below it |
| SimpleBubble.CellsFit | PRELIM-LAB-WORK-2/SimpleBubbleSort.py:54-62 | measuring only the largest and smallest numbers is enough: every number is padded by at least two spaces to exactly the common width |
| SimpleBubble.PrintOrganized | PRELIM-LAB-WORK-2/SimpleBubbleSort.py:43-72 | the banner and "No data." for an empty list; for a non-empty one, a `ZeroDivisionError` exactly when `items_per_line` is zero |
| SimpleBubble.GridLines | PRELIM-LAB-WORK-2/SimpleBubbleSort.py:60-72 | for a positive `items_per_line`, the numbers come out in lines of that many, the last holding the rest, each ending in exactly one newline |
| SimpleBubble.GridLineCount | PRELIM-LAB-WORK-2/SimpleBubbleSort.py:60-70 | there are `ceil(n / items_per_line)` lines |
| ExamApp.MissingFrom | PRELIM-EXAM/src/main.py:79 | the missing columns are exactly the required ones absent from the header |
| ExamApp.CoerceId | PRELIM-EXAM/src/main.py:86-89 | the ID becomes a number exactly when `int` accepts it, and otherwise stays the same text |
| ExamApp.CoerceShown | PRELIM-EXAM/src/main.py:86-89 | an ID written by `str(n)` comes back as `n` |
| ExamApp.ConvertRows | PRELIM-EXAM/src/main.py:84-90 | every row becomes a record with its coerced ID, and a row without an ID fails the whole load |
| ExamApp.LoadData | PRELIM-EXAM/src/main.py:67-102 | each refusal has its own input: a file with no header gives the no-header error; a header lacking any required column gives the missing-columns error, naming exactly the absent ones; with every column present, a row whose ID cell is missing (the `TypeError` that `int(None)` raises, caught by the outer handler) fails the load; otherwise there is one record per row |
| ExamApp.SizeOf | PRELIM-EXAM/src/main.py:608-618 | a size is accepted exactly when it is an integer between 1 and the record count, and each refusal names its reason |
| ExamApp.ParseSize | PRELIM-EXAM/src/main.py:604-618 | "all" in any case means every record; anything else is checked as `int(input.strip())`, which is `int(input)` itself unless an information separator lies in the edge whitespace |
| ExamApp.AllInAnyCase | PRELIM-EXAM/src/main.py:605 | every capitalisation of "all", with any surrounding whitespace, selects every record |
| ExamApp.ParseSizeShown | PRELIM-EXAM/src/main.py:604-618 | a printed size between 1 and the count is accepted as itself |
| ExamApp.StartSort | PRELIM-EXAM/src/main.py:599-626 | nothing starts without loaded data or with a refused size; a quadratic sort on more than 10000 records asks first, and starts only if the user proceeds |
| ExamApp.MergeSortNeverWarns | PRELIM-EXAM/src/main.py:623-626 | merge sort never asks, whatever the size |
| ExamApp.ValidateSize | PRELIM-EXAM/src/main.py:426-465 | an empty field is neutral; "all" is accepted; otherwise the feedback is that of `int(input.strip())`, which is `int(input)` itself unless an information separator lies in the edge whitespace |
| ExamApp.FeedbackOf | PRELIM-EXAM/src/main.py:445-465 | a non-number, a size of zero or less, and a size over the count of loaded data are each flagged with their reason |
| ExamApp.FeedbackAgreesWithStart | PRELIM-EXAM/src/main.py:426-465 | with the data loaded, the live feedback accepts exactly the sizes that starting a sort accepts, with the same reasons for refusals |
| ExamApp.NumberChecksAgree | PRELIM-EXAM/src/main.py:446-454 | the two checks of a parsed number agree case by case |
| ExamApp.FirstUnexpected | PRELIM-EXAM/src/main.py:665-682 | a call fails exactly when it passes a keyword the callee does not take, and the error names the first such keyword in the call |
| ExamApp.Prefix | PRELIM-EXAM/src/main.py:659 | `full_data[:n]` is the first `n` records, or all of them when there are fewer |
| ExamApp.RunSort | PRELIM-EXAM/src/main.py:658-685 | an unexpected keyword or mixed key kinds end in the error dialog; otherwise the chosen sort returns the stable ascending sort of the first `n` records |
| ExamApp.RunSortThreadAsWritten | PRELIM-EXAM/src/main.py:665-685 | as written, every run ends in the error dialog and nothing is sorted |
| ExamApp.RunSortThread | PRELIM-EXAM/src/main.py:658-694 | as intended, a run with keys of one kind returns the stable ascending sort of the first `n` records |

## Left out

- File and console I/O, Tkinter widgets, threads, `time.perf_counter` timings and the `after` scheduling are left out. Files are modelled as lists of lines, and printed text as strings.
- Merge sort's progress values (an `n log2 n` estimate) and the final `100` every finished sort reports are left out. They are floating-point display values with no effect on the result.
- IntSorter.PassProgress: uses exact real arithmetic, not binary floating point.
- IntSorter.InsertProgress: uses exact real arithmetic, not binary floating point.
- `DatasetReader.Threshold` models `int(typical_length * 1.5)` as `3 * t // 2`. This is exact for every length a file can have.
- PyInt.Parse: models only ASCII digits, while Python's `int` also accepts other Unicode decimal digits. It also leaves out the limit on the length of the digit string (4300 digits by default since Python 3.11), beyond which `int` raises `ValueError`. Both matter only for text no sorter writes.
- ExamApp.CoerceId: inherits both gaps of `PyInt.Parse`, so an ID of more than 4300 digits becomes a number here but stays text in Python.
- PyStr.Lower: lowers ASCII letters only, where Python's `lower()` lowers every cased letter. It is used only to recognise "all", and no other character lowers to `a` or `l`.
- CSV parsing (quoting, extra columns, `restkey`) is left out. `ExamApp.RawRow` holds the three columns the core reads, and a name field is always text. A missing name would be `None` in Python, and comparing it would raise `TypeError`.
- Object identity is left out. The model does not record that `merge_sort` returns the caller's own list for short inputs. It also does not record that the wrapper's fallback, `merge_sort_recursive_simple`, sorts the caller's list in place.
- ExamApp.RunSortThread: cancellation is not modelled. The keyed sorts in `sorting_algorithms.py` take no cancel event, so in the corrected run the event has no effect.
- ExamApp.StartSort: the heat-warning dialog is reduced to its answer, the parameter `proceed`.
- SimpleBubble.GridLines: the grid shape is proved only for a positive `items_per_line`. For a negative one, Python's `%` keeps the sign of the divisor; the model's `Body` tests only for a zero remainder, which is the same for both conventions.
- Reading and formatting in `SorterApp` beyond `format_output` is left out: the GUI cache, `widget_width` (unused by the body) and the dataset picker.

## Findings

| source | as written | input that shows it | evidently intended | confidence | as-written member | corrected member |
|---|---|---|---|---|---|---|
| PRELIM-EXAM/src/main.py:665-682 | every sort is called with the keywords `progress_callback` and `cancel_event`, which the functions in `sorting_algorithms.py` do not take, so each call raises `TypeError` and the error dialog is shown | any run, such as Bubble Sort on the first 10 records | the chosen sort orders a copy of the first `n` records | not executed | ExamApp.RunSortThreadAsWritten | ExamApp.RunSortThread |
| Alg.Sorter.py:98-102 | after each pass, bubble sort divides the comparisons done by `n * (n - 1) // 2` whenever a progress callback is given, and the window always gives one | a dataset holding a single number: the first pass computes `0 / 0` and raises `ZeroDivisionError` | a list with nothing to compare reports the pass as complete | not executed | IntSorter.PassProgressAsWritten | IntSorter.PassProgress |

/**
  The decisions the exam application's window makes around the keyed sorts:
  loading the CSV (header check and ID coercion), reading the requested
  dataset size N, the live feedback on the N field, when the warning for the
  quadratic sorts is shown, and the run that sorts the first N records.
 */
module ExamApp {
  import opened Seqs
  import opened PyStr
  import opened PyInt
  import opened Records
  import KeyedSorting

  // load_data_bg

  const RequiredColumns: seq<string> := ["ID", "FirstName", "LastName"]

  /** `[col for col in columns if col not in fieldnames]`. */
  function MissingFrom(columns: seq<string>, fieldnames: seq<string>): (missing: seq<string>)
    ensures |missing| <= |columns|
    ensures forall c :: c in missing <==> c in columns && c !in fieldnames
  {
    if |columns| == 0 then []
    else
      var rest := MissingFrom(columns[1..], fieldnames);
      assert forall c :: c in columns <==> c == columns[0] || c in columns[1..];
      if columns[0] in fieldnames then rest else [columns[0]] + rest
  }

  /**
    One CSV row as `csv.DictReader` gives it: `id` is `None` when the row is
    too short to reach the `ID` column (the reader's `restval`).
   */
  datatype RawRow = RawRow(id: Option<string>, firstName: string, lastName: string)

  /**
    `row['ID'] = int(row['ID'])`, keeping the text when it is not an integer
    (the `ValueError` is swallowed).
   */
  function CoerceId(raw: string): (f: Field)
    ensures f.Num? <==> Parse(raw).Some?
    ensures f.Num? ==> Parse(raw) == Some(f.n)
    ensures f.Text? ==> f.s == raw
  {
    match Parse(raw) {
      case Some(n) => Num(n)
      case None => Text(raw)
    }
  }

  /** An ID written by `str` comes back as that number. */
  lemma CoerceShown(n: int)
    ensures CoerceId(Show(n)) == Num(n)
  {
    ParseShow(n);
  }

  /** What `load_data_bg` ends with. */
  datatype LoadResult =
    | NoHeader
    | MissingColumns(columns: seq<string>)
    | LoadFailed
    | Loaded(records: seq<Record>)

  /**
    The rows as records. `int(None)` raises `TypeError`, which the row loop
    does not catch, so a short row fails the whole load (`None`).
   */
  function ConvertRows(rows: seq<RawRow>): (r: Option<seq<Record>>)
    ensures r.Some? <==> forall i :: 0 <= i < |rows| ==> rows[i].id.Some?
    ensures r.Some? ==> |r.value| == |rows|
    ensures r.Some? ==> forall i :: 0 <= i < |rows| ==>
      r.value[i] == Record(CoerceId(rows[i].id.value), rows[i].firstName, rows[i].lastName)
  {
    if |rows| == 0 then Some([])
    else
      var rest := ConvertRows(rows[1..]);
      assert forall i :: 1 <= i < |rows| ==> rows[i] == rows[1..][i - 1];
      match rows[0].id {
        case None => None
        case Some(raw) =>
          match rest {
            case None => None
            case Some(rs) => Some([Record(CoerceId(raw), rows[0].firstName, rows[0].lastName)] + rs)
          }
      }
  }

  /**
    `load_data_bg` after the file is open: no header, a header lacking a
    required column (the model records which columns are missing, not the
    order the status text lists them in), or every row converted. Data
    counts as valid only in the last case.
   */
  function LoadData(header: Option<seq<string>>, rows: seq<RawRow>): (r: LoadResult)
    ensures header.None? ==> r == NoHeader
    ensures header.Some? && (exists c :: c in RequiredColumns && c !in header.value) ==> r.MissingColumns?
    ensures header.Some? && (forall c :: c in RequiredColumns ==> c in header.value) ==>
      ((exists i :: 0 <= i < |rows| && rows[i].id.None?) ==> r == LoadFailed)
    ensures r.MissingColumns? ==> |r.columns| > 0 && forall c :: c in r.columns <==> c in RequiredColumns && c !in header.value
    ensures r.Loaded? ==> header.Some? && forall c :: c in RequiredColumns ==> c in header.value
    ensures header.Some? && (forall c :: c in RequiredColumns ==> c in header.value) ==>
      (r.Loaded? <==> forall i :: 0 <= i < |rows| ==> rows[i].id.Some?)
    ensures r.Loaded? ==> |r.records| == |rows| && forall i :: 0 <= i < |rows| ==>
      r.records[i] == Record(CoerceId(rows[i].id.value), rows[i].firstName, rows[i].lastName)
  {
    match header {
      case None => NoHeader
      case Some(names) =>
        var missing := MissingFrom(RequiredColumns, names);
        assert (exists c :: c in RequiredColumns && c !in names) ==> |missing| > 0 by {
          if exists c :: c in RequiredColumns && c !in names {
            var c :| c in RequiredColumns && c !in names;
            assert c in missing;
          }
        }
        if |missing| > 0 then
          assert missing[0] in missing;
          MissingColumns(missing)
        else
          assert forall c :: c in RequiredColumns ==> c in names by {
            forall c | c in RequiredColumns
              ensures c in names
            {
              assert c !in missing;
            }
          }
          match ConvertRows(rows) {
            case None => LoadFailed
            case Some(records) => Loaded(records)
          }
    }
  }

  // The requested dataset size

  /** Why a requested size is refused. */
  datatype Reason = NotPositive | TooLarge | NotANumber

  datatype SizeResult = Size(n: int) | Refused(reason: Reason)

  /** The field holds some spelling of `All`, after stripping. */
  predicate IsAll(input: string)
  {
    Lower(Strip(input)) == "all"
  }

  /**
    The checks `start_sort` makes on `int(n_str)`: `None` is the
    `ValueError`; the number must be positive and at most the record count.
   */
  function SizeOf(count: nat, parsed: Option<int>): (r: SizeResult)
    ensures r.Size? ==> parsed == Some(r.n) && 0 < r.n <= count
    ensures r == Refused(NotANumber) <==> parsed.None?
    ensures r == Refused(NotPositive) <==> parsed.Some? && parsed.value <= 0
    ensures r == Refused(TooLarge) <==> parsed.Some? && parsed.value > count
  {
    match parsed {
      case None => Refused(NotANumber)
      case Some(n) =>
        if n <= 0 then Refused(NotPositive)
        else if n > count then Refused(TooLarge)
        else Size(n)
    }
  }

  /**
    The size parsing of `start_sort` (data already loaded): `All` in any case
    selects every record; any other text is read as an integer and checked.
   */
  function ParseSize(count: nat, input: string): (r: SizeResult)
    ensures IsAll(input) ==> r == Size(count)
    ensures !IsAll(input) ==> r == SizeOf(count, Parse(Strip(input)))
    ensures !IsAll(input) && !EdgeSeparator(input) ==> r == SizeOf(count, Parse(input))
    ensures !IsAll(input) && EdgeSeparator(input) ==> r == SizeOf(count, Parse(Strip(input)))
  {
    var s := Strip(input);
    ParseIgnoresStrip(input);
    if Lower(s) == "all" then Size(count)
    else SizeOf(count, Parse(s))
  }

  /** Every capitalisation of `all`, with any surrounding whitespace, selects every record. */
  lemma AllInAnyCase(count: nat, input: string, word: string)
    requires |word| == 3 && word[0] in "aA" && word[1] in "lL" && word[2] in "lL"
    requires Strip(input) == word
    ensures ParseSize(count, input) == Size(count)
  {
    assert Lower(word) == "all";
  }

  /** A size written as a number in range is taken as it is. */
  lemma ParseSizeShown(count: nat, n: int)
    requires 0 < n <= count
    ensures ParseSize(count, Show(n)) == Size(n)
  {
    ShownIsNotAll(n);
    ParseShow(n);
  }

  lemma ShownIsNotAll(n: int)
    requires n > 0
    ensures !IsAll(Show(n))
  {
    var s := Show(n);
    assert s == ShowNat(n);
    assert IsDigit(s[0]) && IsDigit(s[|s| - 1]);
    StripNoEdgeSpace(s);
    assert Lower(s)[0] == s[0];
  }

  // start_sort

  datatype Algorithm = BubbleSort | InsertionSort | MergeSort

  /** The sorts whose running time is quadratic. */
  predicate Quadratic(algo: Algorithm)
  {
    algo == BubbleSort || algo == InsertionSort
  }

  const WarningSize: int := 10000

  /** `n > 10000 and algo in ["Bubble Sort", "Insertion Sort"]`. */
  predicate HeatWarning(n: int, algo: Algorithm)
  {
    n > WarningSize && Quadratic(algo)
  }

  datatype StartDecision =
    | NotLoaded
    | Rejected(reason: Reason)
    | Declined(n: int)
    | Start(n: int, warned: bool)

  /**
    `start_sort`: nothing starts unless the data loaded and the size is
    accepted; a large size for a quadratic sort asks first, and `proceed` is
    the answer given in that dialog.
   */
  function StartSort(dataValid: bool, count: nat, input: string, algo: Algorithm, proceed: bool): (d: StartDecision)
    ensures !dataValid <==> d == NotLoaded
    ensures d.Rejected? <==> dataValid && ParseSize(count, input).Refused?
    ensures d.Rejected? ==> d.reason == ParseSize(count, input).reason
    ensures d.Start? || d.Declined? ==> dataValid && ParseSize(count, input) == Size(d.n)
    ensures d.Start? ==> (d.warned <==> HeatWarning(d.n, algo))
    ensures d.Declined? <==> dataValid && ParseSize(count, input).Size? && HeatWarning(ParseSize(count, input).n, algo) && !proceed
    ensures d.Start? ==> d.n <= count
  {
    if !dataValid then NotLoaded
    else match ParseSize(count, input) {
      case Refused(reason) => Rejected(reason)
      case Size(n) =>
        if HeatWarning(n, algo) then (if proceed then Start(n, true) else Declined(n))
        else Start(n, false)
    }
  }

  /** Merge sort never asks first, whatever the size. */
  lemma MergeSortNeverWarns(dataValid: bool, count: nat, input: string, proceed: bool)
    ensures !StartSort(dataValid, count, input, MergeSort, proceed).Declined?
    ensures StartSort(dataValid, count, input, MergeSort, proceed).Start? ==>
      !StartSort(dataValid, count, input, MergeSort, proceed).warned
  {
  }

  // validate_n_input

  /** The colour and message the N field shows while it is being typed. */
  datatype Feedback = Neutral | AcceptAll | Accept(n: int) | Warn(reason: Reason)

  /**
    The checks `validate_n_input` makes on `int(value)`: not a number, not
    positive, beyond the record count (only once the data has loaded), or
    accepted. Before the data has loaded no upper bound is applied.
   */
  function FeedbackOf(dataValid: bool, count: nat, parsed: Option<int>): (f: Feedback)
    ensures f.Accept? || f.Warn?
    ensures f.Accept? ==> parsed == Some(f.n) && f.n > 0 && (dataValid ==> f.n <= count)
    ensures f == Warn(NotANumber) <==> parsed.None?
    ensures f == Warn(NotPositive) <==> parsed.Some? && parsed.value <= 0
    ensures f == Warn(TooLarge) <==> dataValid && parsed.Some? && parsed.value > count
  {
    match parsed {
      case None => Warn(NotANumber)
      case Some(n) =>
        if n <= 0 then Warn(NotPositive)
        else if dataValid && n > count then Warn(TooLarge)
        else Accept(n)
    }
  }

  /**
    `validate_n_input`: an empty field is neutral, `All` in any case is
    accepted, and any other text is read as an integer and checked.
   */
  function ValidateSize(dataValid: bool, count: nat, input: string): (f: Feedback)
    ensures f == Neutral <==> |Strip(input)| == 0
    ensures f == AcceptAll <==> IsAll(input)
    ensures |Strip(input)| > 0 && !IsAll(input) ==> f == FeedbackOf(dataValid, count, Parse(Strip(input)))
    ensures |Strip(input)| > 0 && !IsAll(input) && !EdgeSeparator(input) ==> f == FeedbackOf(dataValid, count, Parse(input))
    ensures |Strip(input)| > 0 && !IsAll(input) && EdgeSeparator(input) ==> f == FeedbackOf(dataValid, count, Parse(Strip(input)))
  {
    var value := Strip(input);
    ParseIgnoresStrip(input);
    if |value| == 0 then
      assert Lower(value) == "";
      Neutral
    else if Lower(value) == "all" then AcceptAll
    else FeedbackOf(dataValid, count, Parse(value))
  }

  /**
    Once the data has loaded the live feedback agrees with `start_sort`: what
    it accepts starts with the same size, what it flags is refused for the
    same reason, and an empty field is refused as not a number.
   */
  lemma FeedbackAgreesWithStart(count: nat, input: string)
    ensures var f, r := ValidateSize(true, count, input), ParseSize(count, input);
      && (f == Neutral ==> r == Refused(NotANumber))
      && (f == AcceptAll ==> r == Size(count))
      && (f.Accept? ==> r == Size(f.n))
      && (f.Warn? ==> r == Refused(f.reason))
  {
    var value := Strip(input);
    if |value| == 0 {
      assert Lower(value) == "";
      StripNoEdgeSeparator(input);
      assert !DigitBody(value);
      assert Parse(value).None?;
    } else if !IsAll(input) {
      NumberChecksAgree(count, Parse(value));
    }
  }

  /** On the same parsed number, both checks reach the same verdict. */
  lemma NumberChecksAgree(count: nat, parsed: Option<int>)
    ensures var f, r := FeedbackOf(true, count, parsed), SizeOf(count, parsed);
      && (f.Accept? <==> r.Size?)
      && (f.Accept? ==> r.n == f.n)
      && (f.Warn? ==> r == Refused(f.reason))
  {
  }

  // run_sort_thread

  /** The keyword parameters the keyed sorts accept besides `data` and `key`. */
  const SortKeywords: set<string> := {"descending"}

  /** The first keyword argument a call passes that the callee does not take. */
  function FirstUnexpected(kwargs: seq<string>, accepted: set<string>): (r: Option<string>)
    ensures r.None? <==> forall i :: 0 <= i < |kwargs| ==> kwargs[i] in accepted
    ensures r.Some? ==> r.value !in accepted && exists i :: 0 <= i < |kwargs| && kwargs[i] == r.value
    ensures r.Some? ==> exists i :: 0 <= i < |kwargs| && kwargs[i] == r.value && forall j :: 0 <= j < i ==> kwargs[j] in accepted
  {
    if |kwargs| == 0 then None
    else if kwargs[0] !in accepted then Some(kwargs[0])
    else
      var rest := FirstUnexpected(kwargs[1..], accepted);
      assert forall i :: 1 <= i < |kwargs| ==> kwargs[i] == kwargs[1..][i - 1];
      rest
  }

  /** Why a run ends in the error dialog. */
  datatype RunError =
    | UnexpectedKeyword(name: string)
    | MixedKeyTypes

  datatype RunResult = Finished(records: seq<Record>) | ErrorShown(error: RunError)

  /** `full_data[:n]`: the first `n` records, or all of them when there are fewer. */
  function Prefix(data: seq<Record>, n: nat): (subset: seq<Record>)
    ensures |subset| == (if n <= |data| then n else |data|)
    ensures subset == data[..|subset|]
  {
    if n <= |data| then data[..n] else data
  }

  /**
    The body of `run_sort_thread`, for a call that passes `kwargs` to the
    chosen sort. A keyword the sort does not take raises `TypeError` before
    anything is sorted. A subset whose keys mix numbers with text makes the
    sort compare a number with a string, which also raises `TypeError`.
    Otherwise the chosen sort, ascending, orders a copy of the first `n`
    records.
   */
  method RunSort(data: seq<Record>, n: nat, algo: Algorithm, key: SortKey, kwargs: seq<string>)
    returns (r: RunResult)
    ensures FirstUnexpected(kwargs, SortKeywords).Some? ==>
      r == ErrorShown(UnexpectedKeyword(FirstUnexpected(kwargs, SortKeywords).value))
    ensures FirstUnexpected(kwargs, SortKeywords).None? && !UniformKeys(Prefix(data, n), key) ==>
      r == ErrorShown(MixedKeyTypes)
    ensures FirstUnexpected(kwargs, SortKeywords).None? && UniformKeys(Prefix(data, n), key) ==>
      r.Finished? && multiset(r.records) == multiset(Prefix(data, n))
      && Sorted(r.records, key, false) && SameKeyOrder(Prefix(data, n), r.records, key)
      && r.records == KeyedSorting.MergeSort(Prefix(data, n), key, false)
  {
    var subset := Prefix(data, n);
    var unexpected := FirstUnexpected(kwargs, SortKeywords);
    if unexpected.Some? {
      return ErrorShown(UnexpectedKeyword(unexpected.value));
    }
    if !UniformKeys(subset, key) {
      return ErrorShown(MixedKeyTypes);
    }
    var sorted: seq<Record>;
    match algo {
      case BubbleSort =>
        var passes;
        sorted, passes := KeyedSorting.BubbleSort(subset, key, false);
        StableSortUnique(sorted, KeyedSorting.MergeSort(subset, key, false), key, false);
      case InsertionSort =>
        sorted := KeyedSorting.InsertionSort(subset, key, false);
        StableSortUnique(sorted, KeyedSorting.MergeSort(subset, key, false), key, false);
      case MergeSort =>
        sorted := KeyedSorting.MergeSort(subset, key, false);
    }
    return Finished(sorted);
  }

  /**
    `run_sort_thread` as written: every sort is called with the keywords
    `progress_callback` and `cancel_event`, which the keyed sorts do not
    take, so every run ends in the error dialog and nothing is sorted.
   */
  method RunSortThreadAsWritten(data: seq<Record>, n: nat, algo: Algorithm, key: SortKey) returns (r: RunResult)
    ensures r == ErrorShown(UnexpectedKeyword("progress_callback"))
  {
    r := RunSort(data, n, algo, key, ["progress_callback", "cancel_event"]);
  }

  /**
    `run_sort_thread` as intended: the chosen sort orders a copy of the first
    `n` records by `key`, ascending, and `full_data` is left as it was.
   */
  method RunSortThread(data: seq<Record>, n: nat, algo: Algorithm, key: SortKey) returns (r: RunResult)
    ensures !UniformKeys(Prefix(data, n), key) ==> r == ErrorShown(MixedKeyTypes)
    ensures UniformKeys(Prefix(data, n), key) ==>
      r.Finished? && multiset(r.records) == multiset(Prefix(data, n))
      && Sorted(r.records, key, false) && SameKeyOrder(Prefix(data, n), r.records, key)
      && r.records == KeyedSorting.MergeSort(Prefix(data, n), key, false)
  {
    r := RunSort(data, n, algo, key, []);
  }
}

/** `main`: the output name derived from the input path and the stages run
    in order (read, validate, filter, save), where any failure is logged
    and nothing is saved. Reading the file and the clock are parameters:
    `read` is what `read_csv_file` produced and `now` what `datetime.now()`
    returned. */
module Pipeline {
  import opened Results
  import opened Calendar
  import opened Customers
  import opened RecentFilter

  const OutputPrefix := "proc__"

  /** `os.path.basename` with the POSIX separator: what follows the last
      '/', the whole path when there is none. */
  function BaseName(path: string): (name: string)
    ensures '/' !in name
    ensures |name| <= |path| && path[|path| - |name|..] == name
    ensures |name| < |path| ==> path[|path| - |name| - 1] == '/'
    decreases |path|
  {
    if path == [] then []
    else if path[|path| - 1] == '/' then []
    else
      var init := path[..|path| - 1];
      assert path == init + [path[|path| - 1]];
      BaseName(init) + [path[|path| - 1]]
  }

  /** The contract of BaseName leaves one choice: it is the longest suffix
      free of separators. */
  lemma BaseNameUnique(path: string, name: string)
    requires '/' !in name
    requires |name| <= |path| && path[|path| - |name|..] == name
    requires |name| < |path| ==> path[|path| - |name| - 1] == '/'
    ensures name == BaseName(path)
  {
    var b := BaseName(path);
    if |name| < |b| {
      assert false;
    } else if |b| < |name| {
      assert false;
    }
    assert name == path[|path| - |name|..] == b;
  }

  /** `f"proc__{os.path.basename(input_file)}"`. */
  function OutputName(inputFile: string): (out: string)
    ensures |out| >= |OutputPrefix| && out[..|OutputPrefix|] == OutputPrefix
    ensures out[|OutputPrefix|..] == BaseName(inputFile)
  {
    OutputPrefix + BaseName(inputFile)
  }

  /** The output goes to the current directory: its name has no separator. */
  lemma OutputNameIsLocal(inputFile: string)
    ensures '/' !in OutputName(inputFile)
  {
    assert '/' !in OutputPrefix;
    assert OutputName(inputFile) == OutputPrefix + BaseName(inputFile);
  }

  /** The exception a stage raised and `main` logged. */
  datatype PipelineError =
    | ReadFailed(reason: string)
    | ValidationFailed(issues: seq<Issue>)
    | FilterFailed(cause: FilterError)

  /** What a run ends with: the records handed to `save_filtered_data_to_csv`
      under the output name, or the logged error and no save. */
  datatype Run = Save(outputFile: string, records: seq<Customer>) | Abort(error: PipelineError)

  /** `main(input_file)`. */
  function Process(inputFile: string, read: Result<seq<Row>, string>, now: DateTime): (run: Run)
    requires ValidDateTime(now)
    ensures run.Save? <==> read.Ok? && ValidateRows(read.value).Ok? && now.date.year != MinYear
    ensures run.Save? ==> run.outputFile == OutputName(inputFile)
    ensures read.Err? ==> run == Abort(ReadFailed(read.error))
    ensures read.Ok? && ValidateRows(read.value).Err? ==> run == Abort(ValidationFailed(ValidateRows(read.value).error))
    ensures read.Ok? && ValidateRows(read.value).Ok? && now.date.year == MinYear ==> run == Abort(FilterFailed(YearOutOfRange))
  {
    var outputFile := OutputName(inputFile);
    match read
    case Err(reason) => Abort(ReadFailed(reason))
    case Ok(rows) =>
      match ValidateRows(rows)
      case Err(issues) => Abort(ValidationFailed(issues))
      case Ok(validated) =>
        match FilterRecentCustomers(validated, now)
        case Err(e) => Abort(FilterFailed(e))
        case Ok(filtered) => Save(outputFile, filtered)
  }

  /** A successful run saves, in their original order, exactly the records
      of the rows whose signup is at or after the cutoff: saved record k
      comes from row pos[k], the positions increase, and a row is saved
      exactly when its signup is at or after one year before `now`. */
  lemma ProcessSavesRecentRows(inputFile: string, rows: seq<Row>, now: DateTime)
    requires ValidDateTime(now) && Process(inputFile, Ok(rows), now).Save?
    ensures var out := Process(inputFile, Ok(rows), now).records;
      var cutoff := OneYearBefore(now).value;
      var pos := KeptPositions(ValidateRows(rows).value, cutoff);
      && |pos| == |out| && Increasing(pos)
      && (forall k :: 0 <= k < |pos| ==> pos[k] < |rows| && ValidateRow(rows[pos[k]]) == Ok(out[k]))
      && (forall i :: 0 <= i < |rows| ==> (i in pos <==> !Before(ValidateRow(rows[i]).value.signupDate, cutoff)))
  {
    var validated := ValidateRows(rows).value;
    KeepRecentSelectsInOrder(validated, OneYearBefore(now).value);
  }

  /** One bad row anywhere stops the run before anything is saved. */
  lemma AnyBadRowAborts(inputFile: string, rows: seq<Row>, now: DateTime, i: nat)
    requires ValidDateTime(now) && i < |rows| && ValidateRow(rows[i]).Err?
    ensures Process(inputFile, Ok(rows), now).Abort?
    ensures Process(inputFile, Ok(rows), now).error.ValidationFailed?
  {
  }

  /** When every signup is older than the cutoff the run still saves, an
      empty set of records. */
  lemma NothingRecentSavesEmpty(inputFile: string, rows: seq<Row>, now: DateTime)
    requires ValidDateTime(now) && now.date.year != MinYear && ValidateRows(rows).Ok?
    requires forall i :: 0 <= i < |rows| ==> Before(ValidateRow(rows[i]).value.signupDate, OneYearBefore(now).value)
    ensures Process(inputFile, Ok(rows), now) == Save(OutputName(inputFile), [])
  {
    var validated := ValidateRows(rows).value;
    NothingRecentKeepsNothing(validated, OneYearBefore(now).value);
  }
}

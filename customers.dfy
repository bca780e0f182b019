/** The `CustomerData` record and batch validation: each row of the data
    frame is turned into a record by the record's field coercions, in
    order, and the first row that fails aborts the whole batch. */
module Customers {
  import opened Results
  import opened Calendar
  import DateFormat

  /** A cell value as the data frame hands it over. The model does not look
      inside Python objects: a value is known by whether it is a `str` and
      by what the record's lax coercions make of it (None when a coercion
      rejects it). A datetime produced by the coercion is a Python object
      and so always valid; `asDateTime` does not encode that, and no
      property proved here depends on it. */
  datatype RawValue =
    | Text(text: string, asInt: Option<int>)
    | NonText(asInt: Option<int>, asStr: Option<string>, asDateTime: Option<DateTime>)

  /** One row of `df.to_dict(orient='records')`: column name to value. */
  type Row = map<string, RawValue>

  datatype Customer = Customer(customerId: int, name: string, signupDate: DateTime, country: string)

  /** The record's fields, in declaration order. */
  datatype Field = CustomerId | Name | SignupDate | Country

  function Key(f: Field): string {
    match f
    case CustomerId => "customer_id"
    case Name => "name"
    case SignupDate => "signup_date"
    case Country => "country"
  }

  datatype IssueKind = Missing | Invalid

  /** One entry of a validation error's list of failing fields. */
  datatype Issue = Issue(field: Field, kind: IssueKind)

  // ----- The signup_date validator that runs before type validation -------------

  /** What `parse_signup_date` returns: the parsed datetime, or the value it
      was given. */
  datatype SignupValue = Parsed(at: DateTime) | Unchanged(raw: RawValue)

  /** `parse_signup_date`: a `str` is parsed with `strptime(value,
      '%Y-%m-%d')`, whose ValueError becomes the error; anything else is
      returned as it is. */
  function ParseSignupDate(v: RawValue): (r: Result<SignupValue, DateFormat.ParseError>)
    ensures v.NonText? ==> r == Ok(Unchanged(v))
    ensures v.Text? ==> (r.Ok? <==> DateFormat.ParseYmd(v.text).Ok?)
    ensures v.Text? && r.Ok? ==> r.value.Parsed? && ValidDateTime(r.value.at) && r.value.at.time == Midnight
    ensures v.Text? && r.Ok? ==> r.value == Parsed(DateFormat.ParseYmd(v.text).value)
    ensures v.Text? && r.Ok? ==> v.text in DateFormat.Spellings(r.value.at.date)
    ensures v.Text? && r.Err? ==> r.error == DateFormat.ParseYmd(v.text).error
  {
    match v
    case Text(s, _) =>
      (match DateFormat.ParseYmd(s)
       case Ok(dt) =>
         DateFormat.ParsedIsSpelling(s);
         Ok(Parsed(dt))
       case Err(e) => Err(e))
    case NonText(_, _, _) => Ok(Unchanged(v))
  }

  // ----- Field coercions ---------------------------------------------------------

  function CoerceInt(v: RawValue): Option<int> {
    v.asInt
  }

  /** Only a `str`, or what the coercion accepts of another value, is a str. */
  function CoerceStr(v: RawValue): Option<string> {
    match v
    case Text(s, _) => Some(s)
    case NonText(_, s, _) => s
  }

  /** The signup_date validator first, then datetime validation of what it
      returned: a parsed datetime is accepted as it is. */
  function CoerceSignupDate(v: RawValue): (r: Option<DateTime>)
    ensures v.Text? ==> (r.Some? <==> DateFormat.ParseYmd(v.text).Ok?)
    ensures v.Text? && r.Some? ==> r.value == DateFormat.ParseYmd(v.text).value && r.value.time == Midnight
    ensures v.NonText? ==> r == v.asDateTime
  {
    match ParseSignupDate(v)
    case Err(_) => None
    case Ok(Parsed(dt)) => Some(dt)
    case Ok(Unchanged(NonText(_, _, dt))) => dt
  }

  /** The coercion of field f accepts the value. */
  predicate Coerces(f: Field, v: RawValue) {
    match f
    case CustomerId => CoerceInt(v).Some?
    case Name => CoerceStr(v).Some?
    case SignupDate => CoerceSignupDate(v).Some?
    case Country => CoerceStr(v).Some?
  }

  /** The field is present in the row and its coercion accepts its value. */
  predicate FieldOk(row: Row, f: Field) {
    Key(f) in row && Coerces(f, row[Key(f)])
  }

  function Position(f: Field): nat {
    match f
    case CustomerId => 0
    case Name => 1
    case SignupDate => 2
    case Country => 3
  }

  function IssueOf(row: Row, f: Field): seq<Issue> {
    if Key(f) !in row then [Issue(f, Missing)]
    else if !Coerces(f, row[Key(f)]) then [Issue(f, Invalid)]
    else []
  }

  function IssuesOf(row: Row): seq<Issue> {
    IssueOf(row, CustomerId) + IssueOf(row, Name) + IssueOf(row, SignupDate) + IssueOf(row, Country)
  }

  // ----- One row -------------------------------------------------------------------

  /** `CustomerData(**row)`. Every field is validated; the error lists each
      failing field once, in declaration order, as missing when its column
      is absent and as invalid when its value is rejected. Columns other
      than the four fields are ignored. */
  function ValidateRow(row: Row): (r: Result<Customer, seq<Issue>>)
    ensures r.Ok? <==> FieldOk(row, CustomerId) && FieldOk(row, Name) && FieldOk(row, SignupDate) && FieldOk(row, Country)
    ensures r.Ok? ==>
      && CoerceInt(row["customer_id"]) == Some(r.value.customerId)
      && CoerceStr(row["name"]) == Some(r.value.name)
      && CoerceSignupDate(row["signup_date"]) == Some(r.value.signupDate)
      && CoerceStr(row["country"]) == Some(r.value.country)
    ensures r.Err? ==> r.error != []
    ensures r.Err? ==> forall i :: 0 <= i < |r.error| ==>
      && !FieldOk(row, r.error[i].field)
      && (r.error[i].kind == Missing <==> Key(r.error[i].field) !in row)
    ensures r.Err? ==> forall f :: !FieldOk(row, f) ==> exists i :: 0 <= i < |r.error| && r.error[i].field == f
    ensures r.Err? ==> forall i, j :: 0 <= i < j < |r.error| ==> Position(r.error[i].field) < Position(r.error[j].field)
  {
    var issues := IssuesOf(row);
    IssuesOfSound(row);
    IssuesOfOrdered(row);
    IssuesOfComplete(row);
    if issues == [] then
      Ok(Customer(
        CoerceInt(row["customer_id"]).value,
        CoerceStr(row["name"]).value,
        CoerceSignupDate(row["signup_date"]).value,
        CoerceStr(row["country"]).value))
    else
      Err(issues)
  }

  lemma IssueOfShape(row: Row, f: Field)
    ensures |IssueOf(row, f)| <= 1
    ensures IssueOf(row, f) == [] <==> FieldOk(row, f)
    ensures forall i :: 0 <= i < |IssueOf(row, f)| ==> IssueOf(row, f)[i].field == f
  {
  }

  lemma IssuesOfSound(row: Row)
    ensures IssuesOf(row) == [] <==> FieldOk(row, CustomerId) && FieldOk(row, Name) && FieldOk(row, SignupDate) && FieldOk(row, Country)
    ensures forall i :: 0 <= i < |IssuesOf(row)| ==>
      && !FieldOk(row, IssuesOf(row)[i].field)
      && (IssuesOf(row)[i].kind == Missing <==> Key(IssuesOf(row)[i].field) !in row)
  {
  }

  lemma IssuesOfOrdered(row: Row)
    ensures forall i, j :: 0 <= i < j < |IssuesOf(row)| ==> Position(IssuesOf(row)[i].field) < Position(IssuesOf(row)[j].field)
  {
    var a, b, c, d := IssueOf(row, CustomerId), IssueOf(row, Name), IssueOf(row, SignupDate), IssueOf(row, Country);
    IssueOfShape(row, CustomerId);
    IssueOfShape(row, Name);
    IssueOfShape(row, SignupDate);
    IssueOfShape(row, Country);
    var all := a + b + c + d;
    assert forall i :: 0 <= i < |all| ==>
      Position(all[i].field) == if i < |a| then 0 else if i < |a| + |b| then 1 else if i < |a| + |b| + |c| then 2 else 3;
  }

  lemma IssuesOfComplete(row: Row)
    ensures forall f :: !FieldOk(row, f) ==> exists i :: 0 <= i < |IssuesOf(row)| && IssuesOf(row)[i].field == f
  {
    forall f | !FieldOk(row, f) ensures exists i :: 0 <= i < |IssuesOf(row)| && IssuesOf(row)[i].field == f {
      IssuesOfCovers(row, f);
    }
  }

  lemma IssuesOfCovers(row: Row, f: Field)
    requires !FieldOk(row, f)
    ensures exists i :: 0 <= i < |IssuesOf(row)| && IssuesOf(row)[i].field == f
  {
    var before := match f
      case CustomerId => []
      case Name => IssueOf(row, CustomerId)
      case SignupDate => IssueOf(row, CustomerId) + IssueOf(row, Name)
      case Country => IssueOf(row, CustomerId) + IssueOf(row, Name) + IssueOf(row, SignupDate);
    assert IssuesOf(row)[|before|].field == f;
  }

  // ----- The batch -------------------------------------------------------------------

  /** The outcome of validating each row on its own, in row order. */
  function Outcomes(rows: seq<Row>): (r: seq<Result<Customer, seq<Issue>>>)
    ensures |r| == |rows| && forall i :: 0 <= i < |rows| ==> r[i] == ValidateRow(rows[i])
  {
    seq(|rows|, i requires 0 <= i < |rows| => ValidateRow(rows[i]))
  }

  /** Evaluating outcomes left to right, stopping at the first error: the
      values of all of them, in order, or that first error. */
  function Collect<T, E>(rs: seq<Result<T, E>>): (r: Result<seq<T>, E>)
    ensures r.Ok? <==> forall i :: 0 <= i < |rs| ==> rs[i].Ok?
    ensures r.Ok? ==> |r.value| == |rs| && forall i :: 0 <= i < |rs| ==> rs[i] == Ok(r.value[i])
  {
    if rs == [] then Ok([])
    else
      match rs[0]
      case Err(e) => Err(e)
      case Ok(x) =>
        match Collect(rs[1..])
        case Err(e) => Err(e)
        case Ok(xs) =>
          assert forall i :: 1 <= i < |rs| ==> rs[i] == rs[1..][i - 1];
          Ok([x] + xs)
  }

  /** When outcome i is the first error, collecting stops with it. */
  lemma {:induction false} CollectStopsAtFirstError<T, E>(rs: seq<Result<T, E>>, i: nat)
    requires i < |rs| && rs[i].Err?
    requires forall j :: 0 <= j < i ==> rs[j].Ok?
    ensures Collect(rs) == Err(rs[i].error)
    decreases i
  {
    if i > 0 {
      assert forall j :: 0 <= j < i - 1 ==> rs[1..][j] == rs[j + 1];
      CollectStopsAtFirstError(rs[1..], i - 1);
    }
  }

  /** Some outcome from `k` on is an error and none before `k` is: then
      there is a first error, and collecting stops with it. */
  lemma {:induction false} CollectFailsAtSomeError<T, E>(rs: seq<Result<T, E>>, k: nat)
    requires k <= |rs| && forall j :: 0 <= j < k ==> rs[j].Ok?
    requires Collect(rs).Err?
    ensures exists i :: 0 <= i < |rs| && rs[i] == Err(Collect(rs).error) && forall j :: 0 <= j < i ==> rs[j].Ok?
    decreases |rs| - k
  {
    if rs[k].Err? {
      CollectStopsAtFirstError(rs, k);
    } else {
      CollectFailsAtSomeError(rs, k + 1);
    }
  }

  /** `[CustomerData(**item) for item in data]`: rows are validated in order
      and the first error propagates, so either every row yields its record,
      at the same position, or the batch fails as a whole. */
  function ValidateRows(rows: seq<Row>): (r: Result<seq<Customer>, seq<Issue>>)
    ensures r.Ok? <==> forall i :: 0 <= i < |rows| ==> ValidateRow(rows[i]).Ok?
    ensures r.Ok? ==> |r.value| == |rows| && forall i :: 0 <= i < |rows| ==> ValidateRow(rows[i]) == Ok(r.value[i])
  {
    Collect(Outcomes(rows))
  }

  /** The error of a failed batch is the error of its first failing row. */
  lemma FirstBadRowAborts(rows: seq<Row>, i: nat)
    requires i < |rows| && ValidateRow(rows[i]).Err?
    requires forall j :: 0 <= j < i ==> ValidateRow(rows[j]).Ok?
    ensures ValidateRows(rows) == Err(ValidateRow(rows[i]).error)
  {
    CollectStopsAtFirstError(Outcomes(rows), i);
  }

  /** A failed batch failed at some row, every earlier row being valid. */
  lemma FailedBatchHasFirstBadRow(rows: seq<Row>)
    requires ValidateRows(rows).Err?
    ensures exists i ::
              && 0 <= i < |rows|
              && ValidateRow(rows[i]) == Err(ValidateRows(rows).error)
              && forall j :: 0 <= j < i ==> ValidateRow(rows[j]).Ok?
  {
    var rs := Outcomes(rows);
    CollectFailsAtSomeError(rs, 0);
    var i :| 0 <= i < |rs| && rs[i] == Err(Collect(rs).error) && forall j :: 0 <= j < i ==> rs[j].Ok?;
    assert ValidateRow(rows[i]) == Err(ValidateRows(rows).error);
  }

  /** A signup_date given as text is a date at midnight that the text spells. */
  lemma SignupFromText(row: Row, c: Customer)
    requires ValidateRow(row) == Ok(c) && row["signup_date"].Text?
    ensures ValidDateTime(c.signupDate) && c.signupDate == AtMidnight(c.signupDate.date)
    ensures row["signup_date"].text in DateFormat.Spellings(c.signupDate.date)
  {
    DateFormat.ParseCharacterization(row["signup_date"].text, c.signupDate.date);
  }

  /** A signup_date that is not text reaches the record as the datetime the
      coercion makes of it, unchanged by the parser. */
  lemma SignupPassedThrough(row: Row, c: Customer)
    requires ValidateRow(row) == Ok(c) && row["signup_date"].NonText?
    ensures row["signup_date"].asDateTime == Some(c.signupDate)
  {
  }
}

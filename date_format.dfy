/** `datetime.strptime(text, '%Y-%m-%d')` as CPython's `_strptime` module
    implements it. The format compiles to the regular expression

        (?P<Y>\d\d\d\d)-(?P<m>1[0-2]|0[1-9]|[1-9])-(?P<d>3[01]|[12]\d|0[1-9]|[1-9]| [1-9])

    which is matched at the start of the text; the text is rejected when
    nothing matches, when characters remain after the match, and when the
    matched numbers are not a date of the calendar (year 0, 30 February).
    So this grammar is CPython's, not the stricter zero-padded YYYY-MM-DD:
    a one-digit month and a one-digit or space-padded day are accepted. */
module DateFormat {
  import opened Results
  import opened Calendar

  /** The three ValueErrors `strptime` raises for this format. */
  datatype ParseError =
    | DoesNotMatchFormat
    | UnconvertedDataRemains
    | DateOutOfRange

  predicate IsDigit(c: char) {
    '0' <= c <= '9'
  }

  function DigitValue(c: char): (n: nat)
    requires IsDigit(c)
    ensures n < 10
  {
    c as int - '0' as int
  }

  function DigitChar(n: nat): (c: char)
    requires n < 10
    ensures IsDigit(c) && DigitValue(c) == n
  {
    (n + '0' as int) as char
  }

  lemma DigitCharOfValue(c: char)
    requires IsDigit(c)
    ensures DigitChar(DigitValue(c)) == c
  {
  }

  /** A group of the expression: the number it denotes and the position just
      after it. */
  datatype Token = Token(value: nat, end: nat)

  /** The numbers the whole expression captured and where the match ends. */
  datatype Fields = Fields(year: nat, month: nat, day: nat, end: nat)

  /** `(?P<m>1[0-2]|0[1-9]|[1-9])-` at position i, alternatives in order.
      Only one alternative can be followed by '-', so the regular
      expression engine's backtracking into this group never finds a
      second match. */
  function MatchMonthAndDash(s: string, i: nat): (r: Option<Token>)
    ensures r.Some? ==> 1 <= r.value.value <= 12 && i + 2 <= r.value.end <= |s|
    ensures r.Some? ==> s[r.value.end - 1] == '-'
  {
    if i + 2 < |s| && s[i] == '1' && '0' <= s[i + 1] <= '2' && s[i + 2] == '-' then
      Some(Token(10 + DigitValue(s[i + 1]), i + 3))
    else if i + 2 < |s| && s[i] == '0' && '1' <= s[i + 1] <= '9' && s[i + 2] == '-' then
      Some(Token(DigitValue(s[i + 1]), i + 3))
    else if i + 1 < |s| && '1' <= s[i] <= '9' && s[i + 1] == '-' then
      Some(Token(DigitValue(s[i]), i + 2))
    else
      None
  }

  /** `(?P<d>3[01]|[12]\d|0[1-9]|[1-9]| [1-9])` at position j: the first
      alternative that matches wins, since nothing follows the group. */
  function MatchDay(s: string, j: nat): (r: Option<Token>)
    ensures r.Some? ==> 1 <= r.value.value <= 31 && j + 1 <= r.value.end <= |s|
  {
    if j + 1 < |s| && s[j] == '3' && '0' <= s[j + 1] <= '1' then
      Some(Token(30 + DigitValue(s[j + 1]), j + 2))
    else if j + 1 < |s| && '1' <= s[j] <= '2' && IsDigit(s[j + 1]) then
      Some(Token(10 * DigitValue(s[j]) + DigitValue(s[j + 1]), j + 2))
    else if j + 1 < |s| && s[j] == '0' && '1' <= s[j + 1] <= '9' then
      Some(Token(DigitValue(s[j + 1]), j + 2))
    else if j < |s| && '1' <= s[j] <= '9' then
      Some(Token(DigitValue(s[j]), j + 1))
    else if j + 1 < |s| && s[j] == ' ' && '1' <= s[j + 1] <= '9' then
      Some(Token(DigitValue(s[j + 1]), j + 2))
    else
      None
  }

  /** The whole expression matched at the start of s. */
  function MatchPrefix(s: string): (r: Option<Fields>)
    ensures r.Some? ==> r.value.year <= MaxYear && 1 <= r.value.month <= 12 && 1 <= r.value.day <= 31
    ensures r.Some? ==> 8 <= r.value.end <= |s|
  {
    if |s| < 5 || !(IsDigit(s[0]) && IsDigit(s[1]) && IsDigit(s[2]) && IsDigit(s[3])) || s[4] != '-' then
      None
    else
      var year := 1000 * DigitValue(s[0]) + 100 * DigitValue(s[1]) + 10 * DigitValue(s[2]) + DigitValue(s[3]);
      match MatchMonthAndDash(s, 5)
      case None => None
      case Some(m) =>
        match MatchDay(s, m.end)
        case None => None
        case Some(d) => Some(Fields(year, m.value, d.value, d.end))
  }

  /** `datetime.strptime(s, '%Y-%m-%d')`. */
  function ParseYmd(s: string): (r: Result<DateTime, ParseError>)
    ensures r.Ok? ==> ValidDateTime(r.value) && r.value.time == Midnight
  {
    match MatchPrefix(s)
    case None => Err(DoesNotMatchFormat)
    case Some(f) =>
      var d := Date(f.year, f.month, f.day);
      if f.end != |s| then Err(UnconvertedDataRemains)
      else if !ValidDate(d) then Err(DateOutOfRange)
      else Ok(AtMidnight(d))
  }

  // ----- The strings that spell a date ---------------------------------------

  function Digits4(y: nat): (s: string)
    requires y < 10000
    ensures |s| == 4
  {
    Pad2(y / 100) + Pad2(y % 100)
  }

  function Pad2(n: nat): (s: string)
    requires n < 100
    ensures |s| == 2
  {
    [DigitChar(n / 10), DigitChar(n % 10)]
  }

  /** The spellings `%m` accepts for a month: zero-padded, or one digit. */
  function MonthSpellings(m: int): set<string>
    requires 1 <= m <= 12
  {
    if m < 10 then {Pad2(m), [DigitChar(m)]} else {Pad2(m)}
  }

  /** The spellings `%d` accepts for a day: zero-padded, one digit, or
      padded with a space. */
  function DaySpellings(d: int): set<string>
    requires 1 <= d <= 31
  {
    if d < 10 then {Pad2(d), [DigitChar(d)], [' ', DigitChar(d)]} else {Pad2(d)}
  }

  function Spell(d: Date, ms: string, ds: string): string
    requires ValidDate(d)
  {
    Digits4(d.year) + "-" + ms + "-" + ds
  }

  /** Every text `%Y-%m-%d` reads as the date d. */
  function Spellings(d: Date): set<string>
    requires ValidDate(d)
  {
    set ms, ds | ms in MonthSpellings(d.month) && ds in DaySpellings(d.day) :: Spell(d, ms, ds)
  }

  /** The zero-padded ISO 8601 form YYYY-MM-DD, one of the spellings. */
  function FormatIso(d: Date): (s: string)
    requires ValidDate(d)
    ensures |s| == 10 && s in Spellings(d)
  {
    assert Pad2(d.month) in MonthSpellings(d.month);
    assert Pad2(d.day) in DaySpellings(d.day);
    Spell(d, Pad2(d.month), Pad2(d.day))
  }

  // ----- Reading the spellings back ------------------------------------------

  lemma DivModUnique(x: int, k: int, q: int, r: int)
    requires k == 10 || k == 100
    requires x == k * q + r && 0 <= r < k
    ensures x / k == q && x % k == r
  {
    if k == 10 {
      assert x / 10 == q;
    } else {
      assert x / 100 == q;
    }
  }

  lemma Pad2Value(n: nat)
    requires n < 100
    ensures var s := Pad2(n); IsDigit(s[0]) && IsDigit(s[1]) && 10 * DigitValue(s[0]) + DigitValue(s[1]) == n
  {
  }

  lemma Digits4Value(y: nat)
    requires y < 10000
    ensures var s := Digits4(y);
      IsDigit(s[0]) && IsDigit(s[1]) && IsDigit(s[2]) && IsDigit(s[3]) &&
      1000 * DigitValue(s[0]) + 100 * DigitValue(s[1]) + 10 * DigitValue(s[2]) + DigitValue(s[3]) == y
  {
    var s := Digits4(y);
    Pad2Value(y / 100);
    Pad2Value(y % 100);
    assert s[0] == Pad2(y / 100)[0] && s[1] == Pad2(y / 100)[1];
    assert s[2] == Pad2(y % 100)[0] && s[3] == Pad2(y % 100)[1];
  }

  lemma Pad2OfDigits(c0: char, c1: char)
    requires IsDigit(c0) && IsDigit(c1)
    ensures Pad2(10 * DigitValue(c0) + DigitValue(c1)) == [c0, c1]
  {
    var n := 10 * DigitValue(c0) + DigitValue(c1);
    DivModUnique(n, 10, DigitValue(c0), DigitValue(c1));
    DigitCharOfValue(c0);
    DigitCharOfValue(c1);
  }

  lemma DigitsOfValue(s: string)
    requires |s| >= 4 && IsDigit(s[0]) && IsDigit(s[1]) && IsDigit(s[2]) && IsDigit(s[3])
    ensures Digits4(1000 * DigitValue(s[0]) + 100 * DigitValue(s[1]) + 10 * DigitValue(s[2]) + DigitValue(s[3])) == s[..4]
  {
    var hi := 10 * DigitValue(s[0]) + DigitValue(s[1]);
    var lo := 10 * DigitValue(s[2]) + DigitValue(s[3]);
    var y := 1000 * DigitValue(s[0]) + 100 * DigitValue(s[1]) + 10 * DigitValue(s[2]) + DigitValue(s[3]);
    assert y == 100 * hi + lo;
    DivModUnique(y, 100, hi, lo);
    Pad2OfDigits(s[0], s[1]);
    Pad2OfDigits(s[2], s[3]);
    assert s[..4] == [s[0], s[1]] + [s[2], s[3]];
  }

  lemma MatchMonthSpelling(s: string, i: nat, m: int, ms: string)
    requires 1 <= m <= 12 && ms in MonthSpellings(m)
    requires i + |ms| < |s| && s[i..i + |ms|] == ms && s[i + |ms|] == '-'
    ensures MatchMonthAndDash(s, i) == Some(Token(m, i + |ms| + 1))
  {
    assert s[i] == ms[0];
    if |ms| == 2 {
      assert s[i + 1] == ms[1];
    }
  }

  lemma MatchDaySpelling(s: string, j: nat, d: int, ds: string)
    requires 1 <= d <= 31 && ds in DaySpellings(d)
    requires j <= |s| && s[j..] == ds
    ensures MatchDay(s, j) == Some(Token(d, |s|))
  {
    assert s[j] == ds[0];
    if |ds| == 2 {
      assert s[j + 1] == ds[1];
    }
  }

  /** A two-digit day is read by one of the two-character alternatives, so
      whatever follows it is left over. */
  lemma MatchDayPadded(s: string, j: nat, d: int)
    requires 1 <= d <= 31 && j + 2 <= |s| && s[j..j + 2] == Pad2(d)
    ensures MatchDay(s, j) == Some(Token(d, j + 2))
  {
    assert s[j] == Pad2(d)[0] && s[j + 1] == Pad2(d)[1];
  }

  lemma SpellLayout(d: Date, ms: string, ds: string)
    requires ValidDate(d)
    ensures var s := Spell(d, ms, ds);
      && |s| == 6 + |ms| + |ds|
      && s[..4] == Digits4(d.year) && s[4] == '-'
      && s[5..5 + |ms|] == ms && s[5 + |ms|] == '-' && s[6 + |ms|..] == ds
  {
  }

  /** Every spelling of a valid date is read back as that date at midnight. */
  lemma {:induction false} ParseSpelling(d: Date, ms: string, ds: string)
    requires ValidDate(d) && ms in MonthSpellings(d.month) && ds in DaySpellings(d.day)
    ensures ParseYmd(Spell(d, ms, ds)) == Ok(AtMidnight(d))
  {
    var s := Spell(d, ms, ds);
    SpellLayout(d, ms, ds);
    Digits4Value(d.year);
    assert s[0] == s[..4][0] && s[1] == s[..4][1] && s[2] == s[..4][2] && s[3] == s[..4][3];
    MatchMonthSpelling(s, 5, d.month, ms);
    assert |ms| >= 1;
    MatchDaySpelling(s, 6 + |ms|, d.day, ds);
  }

  /** Every text that parses is a spelling of the date it parses to. */
  lemma {:induction false} ParsedIsSpelling(s: string)
    requires ParseYmd(s).Ok?
    ensures ValidDate(ParseYmd(s).value.date) && s in Spellings(ParseYmd(s).value.date)
  {
    var f := MatchPrefix(s).value;
    var d := Date(f.year, f.month, f.day);
    var m := MatchMonthAndDash(s, 5).value;
    var t := MatchDay(s, m.end).value;
    assert f.end == t.end == |s|;
    var ms := s[5..m.end - 1];
    var ds := s[m.end..];
    DigitsOfValue(s);
    assert ms in MonthSpellings(d.month) by {
      if m.end == 8 {
        DigitCharOfValue(s[6]);
        assert ms == [s[5], s[6]];
      } else {
        DigitCharOfValue(s[5]);
        assert ms == [s[5]];
      }
    }
    assert ds in DaySpellings(d.day) by {
      var j := m.end;
      if t.end == j + 2 {
        DigitCharOfValue(s[j + 1]);
        if IsDigit(s[j]) { DigitCharOfValue(s[j]); }
        assert ds == [s[j], s[j + 1]];
      } else {
        DigitCharOfValue(s[j]);
        assert ds == [s[j]];
      }
    }
    assert s == Spell(d, ms, ds);
  }

  /** `strptime(s, '%Y-%m-%d')` succeeds with the date d exactly when
      d is a valid date and s is one of its spellings. */
  lemma ParseCharacterization(s: string, d: Date)
    ensures ParseYmd(s) == Ok(AtMidnight(d)) <==> ValidDate(d) && s in Spellings(d)
  {
    if ParseYmd(s) == Ok(AtMidnight(d)) {
      ParsedIsSpelling(s);
    }
    if ValidDate(d) && s in Spellings(d) {
      var ms, ds :| ms in MonthSpellings(d.month) && ds in DaySpellings(d.day) && s == Spell(d, ms, ds);
      ParseSpelling(d, ms, ds);
    }
  }

  /** The zero-padded form reads back as the date, and any text appended
      to it is rejected as unconverted data. */
  lemma IsoRoundTrip(d: Date, tail: string)
    requires ValidDate(d)
    ensures ParseYmd(FormatIso(d)) == Ok(AtMidnight(d))
    ensures tail != [] ==> ParseYmd(FormatIso(d) + tail) == Err(UnconvertedDataRemains)
  {
    var ms, ds := Pad2(d.month), Pad2(d.day);
    assert ms in MonthSpellings(d.month) && ds in DaySpellings(d.day);
    ParseSpelling(d, ms, ds);
    var s := FormatIso(d) + tail;
    SpellLayout(d, ms, ds);
    Digits4Value(d.year);
    assert s[..10] == FormatIso(d);
    assert s[0] == s[..4][0] && s[1] == s[..4][1] && s[2] == s[..4][2] && s[3] == s[..4][3];
    assert s[5..7] == ms && s[7] == '-';
    MatchMonthSpelling(s, 5, d.month, ms);
    assert s[8..10] == ds;
    MatchDayPadded(s, 8, d.day);
  }

  /** A character other than '-' after the year is not the format. */
  lemma WrongSeparatorRejected(s: string)
    requires |s| > 4 && s[4] != '-'
    ensures ParseYmd(s) == Err(DoesNotMatchFormat)
  {
  }

  /** Numbers that fit the expression but name no date are rejected. */
  lemma ImpossibleDateRejected(d: Date, ms: string, ds: string)
    requires 1 <= d.year <= MaxYear && 1 <= d.month <= 12 && 1 <= d.day <= 31
    requires ms in MonthSpellings(d.month) && ds in DaySpellings(d.day)
    requires d.day > DaysInMonth(d.year, d.month)
    ensures ParseYmd(Digits4(d.year) + "-" + ms + "-" + ds) == Err(DateOutOfRange)
  {
    var s := Digits4(d.year) + "-" + ms + "-" + ds;
    assert s[..4] == Digits4(d.year) && s[4] == '-';
    assert s[5..5 + |ms|] == ms && s[5 + |ms|] == '-' && s[6 + |ms|..] == ds;
    Digits4Value(d.year);
    assert s[0] == s[..4][0] && s[1] == s[..4][1] && s[2] == s[..4][2] && s[3] == s[..4][3];
    MatchMonthSpelling(s, 5, d.month, ms);
    assert |ms| >= 1;
    MatchDaySpelling(s, 6 + |ms|, d.day, ds);
  }

  lemma ExampleIsoDate()
    ensures ParseYmd("2024-01-15") == Ok(AtMidnight(Date(2024, 1, 15)))
  {
  }

  lemma ExampleUnpadded()
    ensures ParseYmd("2024-1-5") == Ok(AtMidnight(Date(2024, 1, 5)))
  {
  }

  lemma ExampleSlashes()
    ensures ParseYmd("2024/01/15") == Err(DoesNotMatchFormat)
  {
  }

  lemma ExampleTrailingSpace()
    ensures ParseYmd("2024-01-15 ") == Err(UnconvertedDataRemains)
  {
  }

  lemma ExampleDay32()
    ensures ParseYmd("2024-01-32") == Err(UnconvertedDataRemains)
  {
  }

  lemma ExampleMonth13()
    ensures ParseYmd("2024-13-01") == Err(DoesNotMatchFormat)
  {
  }

  lemma ExampleThirtiethOfFebruary()
    ensures ParseYmd("2023-02-30") == Err(DateOutOfRange)
  {
  }

  lemma ExampleLeapDays()
    ensures ParseYmd("2023-02-29") == Err(DateOutOfRange)
    ensures ParseYmd("2024-02-29") == Ok(AtMidnight(Date(2024, 2, 29)))
  {
  }

  lemma ExampleYearZero()
    ensures ParseYmd("0000-01-01") == Err(DateOutOfRange)
  {
  }
}

/** `filter_recent_customers`: the cutoff one calendar year before `now`
    and the records whose signup datetime is at or after it. The clock is
    a parameter. */
module RecentFilter {
  import opened Results
  import opened Calendar
  import opened Customers

  /** Subtracting a year from a datetime in year 1 leaves Python's range. */
  datatype FilterError = YearOutOfRange

  function Min(a: int, b: int): int {
    if a < b then a else b
  }

  /** `now - pd.DateOffset(years=1)`: the year goes down by one, month and
      time of day stay, and the day is clamped to the length of the month
      in the earlier year. */
  function OneYearBefore(now: DateTime): (r: Result<DateTime, FilterError>)
    requires ValidDateTime(now)
    ensures r.Err? <==> now.date.year == MinYear
    ensures r.Ok? ==> ValidDateTime(r.value) && Before(r.value, now)
    ensures r.Ok? ==> r.value.date.year == now.date.year - 1 && r.value.date.month == now.date.month
    ensures r.Ok? ==> r.value.time == now.time
    ensures r.Ok? ==> r.value.date.day == if now.date.month == 2 && now.date.day == 29 then 28 else now.date.day
    ensures r.Ok? && now.date.month == 2 && now.date.day == 29 ==> !IsLeapYear(r.value.date.year)
  {
    var d := now.date;
    if d.year - 1 < MinYear then Err(YearOutOfRange)
    else Ok(DateTime(Date(d.year - 1, d.month, Min(d.day, DaysInMonth(d.year - 1, d.month))), now.time))
  }

  /** The cutoff lies 365 or 366 whole days before `now`, at the same time
      of day. */
  lemma {:induction false} CutoffIsOneCalendarYear(now: DateTime)
    requires ValidDateTime(now) && OneYearBefore(now).Ok?
    ensures var c := OneYearBefore(now).value;
      var days := DayNumber(now.date) - DayNumber(c.date);
      (days == 365 || days == 366) && Micros(now) - Micros(c) == days * MicrosPerDay
  {
    var c := OneYearBefore(now).value;
    DaysBeforeNextYear(now.date.year - 1);
  }

  /** `item.signup_date >= one_year_ago`. */
  predicate IsRecent(c: Customer, cutoff: DateTime)
    ensures IsRecent(c, cutoff) <==> c.signupDate == cutoff || Before(cutoff, c.signupDate)
  {
    AtOrAfter(c.signupDate, cutoff)
  }

  /** `[item for item in validated_data if item.signup_date >= one_year_ago]`. */
  function KeepRecent(records: seq<Customer>, cutoff: DateTime): (kept: seq<Customer>)
    ensures |kept| <= |records|
    ensures forall c :: c in kept ==> c in records && IsRecent(c, cutoff)
    ensures forall c :: c in records && IsRecent(c, cutoff) ==> c in kept
  {
    if records == [] then []
    else
      var rest := KeepRecent(records[1..], cutoff);
      if IsRecent(records[0], cutoff) then [records[0]] + rest else rest
  }

  /** The positions, in increasing order, of the records kept. */
  function KeptPositions(records: seq<Customer>, cutoff: DateTime): seq<nat> {
    if records == [] then []
    else
      var rest := KeptPositions(records[1..], cutoff);
      var shifted := seq(|rest|, k requires 0 <= k < |rest| => rest[k] + 1);
      if IsRecent(records[0], cutoff) then [0] + shifted else shifted
  }

  lemma {:induction false} KeptPositionsPick(records: seq<Customer>, cutoff: DateTime)
    ensures var kept, pos := KeepRecent(records, cutoff), KeptPositions(records, cutoff);
      && |pos| == |kept|
      && forall k :: 0 <= k < |pos| ==> pos[k] < |records| && kept[k] == records[pos[k]]
  {
    if records != [] {
      KeptPositionsPick(records[1..], cutoff);
    }
  }

  predicate Increasing(s: seq<nat>) {
    forall k, l :: 0 <= k < l < |s| ==> s[k] < s[l]
  }

  lemma {:induction false} KeptPositionsIncrease(records: seq<Customer>, cutoff: DateTime)
    ensures Increasing(KeptPositions(records, cutoff))
  {
    if records != [] {
      KeptPositionsIncrease(records[1..], cutoff);
      var rest := KeptPositions(records[1..], cutoff);
      var shifted := seq(|rest|, k requires 0 <= k < |rest| => rest[k] + 1);
      forall k, l | 0 <= k < l < |shifted| ensures 1 <= shifted[k] < shifted[l] {
        assert shifted[k] == rest[k] + 1 && shifted[l] == rest[l] + 1;
      }
    }
  }

  lemma {:induction false} KeptPositionsExact(records: seq<Customer>, cutoff: DateTime)
    ensures var pos := KeptPositions(records, cutoff);
      forall i :: 0 <= i < |records| ==> (i in pos <==> IsRecent(records[i], cutoff))
  {
    if records != [] {
      KeptPositionsExact(records[1..], cutoff);
      var rest := KeptPositions(records[1..], cutoff);
      var shifted := seq(|rest|, k requires 0 <= k < |rest| => rest[k] + 1);
      forall i | 1 <= i < |records|
        ensures i in shifted <==> IsRecent(records[i], cutoff)
      {
        assert records[i] == records[1..][i - 1];
        if i - 1 in rest {
          var k :| 0 <= k < |rest| && rest[k] == i - 1;
          assert shifted[k] == i;
        }
      }
      assert 0 !in shifted;
    }
  }

  /** The filter keeps a subsequence: kept record k is the record at
      position pos[k], the positions increase, and a position is kept
      exactly when its record's signup is at or after the cutoff; every
      other record signed up strictly before it. */
  lemma KeepRecentSelectsInOrder(records: seq<Customer>, cutoff: DateTime)
    ensures var kept, pos := KeepRecent(records, cutoff), KeptPositions(records, cutoff);
      && |pos| == |kept|
      && (forall k :: 0 <= k < |pos| ==> pos[k] < |records| && kept[k] == records[pos[k]])
      && Increasing(pos)
      && (forall i :: 0 <= i < |records| ==> (i in pos <==> IsRecent(records[i], cutoff)))
      && (forall i :: 0 <= i < |records| && i !in pos ==> Before(records[i].signupDate, cutoff))
  {
    KeptPositionsPick(records, cutoff);
    KeptPositionsIncrease(records, cutoff);
    KeptPositionsExact(records, cutoff);
  }

  /** Filtering a concatenation filters each part. */
  lemma {:induction false} KeepRecentAppend(a: seq<Customer>, b: seq<Customer>, cutoff: DateTime)
    ensures KeepRecent(a + b, cutoff) == KeepRecent(a, cutoff) + KeepRecent(b, cutoff)
  {
    if a == [] {
      assert a + b == b;
    } else {
      assert (a + b)[0] == a[0] && (a + b)[1..] == a[1..] + b;
      KeepRecentAppend(a[1..], b, cutoff);
    }
  }

  /** Filtering again with the same cutoff changes nothing. */
  lemma {:induction false} KeepRecentIdempotent(records: seq<Customer>, cutoff: DateTime)
    ensures KeepRecent(KeepRecent(records, cutoff), cutoff) == KeepRecent(records, cutoff)
  {
    if records != [] {
      KeepRecentIdempotent(records[1..], cutoff);
    }
  }

  /** When every signup is before the cutoff, nothing is kept. */
  lemma {:induction false} NothingRecentKeepsNothing(records: seq<Customer>, cutoff: DateTime)
    requires forall i :: 0 <= i < |records| ==> Before(records[i].signupDate, cutoff)
    ensures KeepRecent(records, cutoff) == []
  {
    if records != [] {
      assert forall i :: 0 <= i < |records| - 1 ==> records[1..][i] == records[i + 1];
      NothingRecentKeepsNothing(records[1..], cutoff);
    }
  }

  /** A signup at midnight survives exactly when its date is after the
      cutoff's date, or is that date and the cutoff is itself at midnight. */
  lemma MidnightSignupBoundary(c: Customer, cutoff: DateTime)
    requires c.signupDate.time == Midnight && ValidTime(cutoff.time)
    ensures IsRecent(c, cutoff) <==>
      DateBefore(cutoff.date, c.signupDate.date) || (c.signupDate.date == cutoff.date && cutoff.time == Midnight)
  {
  }

  /** A customer who signed up (at midnight, as parsed dates are) on the
      cutoff's calendar day, one year before `now`, is kept only when `now`
      is exactly midnight: no same-day inclusion otherwise. */
  lemma SameDayOneYearAgo(c: Customer, now: DateTime)
    requires ValidDateTime(now) && OneYearBefore(now).Ok?
    requires c.signupDate == AtMidnight(OneYearBefore(now).value.date)
    ensures IsRecent(c, OneYearBefore(now).value) <==> now.time == Midnight
  {
    MidnightSignupBoundary(c, OneYearBefore(now).value);
  }

  /** `filter_recent_customers(validated_data)` at the instant `now`. */
  function FilterRecentCustomers(records: seq<Customer>, now: DateTime): (r: Result<seq<Customer>, FilterError>)
    requires ValidDateTime(now)
    ensures r.Err? <==> now.date.year == MinYear
    ensures r.Ok? ==> |r.value| <= |records|
    ensures r.Ok? ==> forall c :: c in r.value ==> c in records && !Before(c.signupDate, OneYearBefore(now).value)
    ensures r.Ok? ==> forall c :: c in records && !Before(c.signupDate, OneYearBefore(now).value) ==> c in r.value
    ensures r.Ok? ==> r.value == KeepRecent(records, OneYearBefore(now).value)
  {
    match OneYearBefore(now)
    case Err(e) => Err(e)
    case Ok(cutoff) => Ok(KeepRecent(records, cutoff))
  }
}

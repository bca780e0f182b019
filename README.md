# Recent customers: a verified model

`get_recent_customers.py` reads a CSV file of customers and validates every
row into a `CustomerData` record (`customer_id: int`, `name: str`,
`signup_date: datetime`, `country: str`). A `str` signup date is parsed with
`datetime.strptime(value, '%Y-%m-%d')`. The program keeps the customers whose
signup is at or after `datetime.now() - pd.DateOffset(years=1)` and writes
them to `proc__<basename of the input>`. Any failure is logged and nothing is
saved.

This project models that logic as pure Dafny functions and proves what it
promises. It has six modules:

- `Results` (results.dfy): `Option` and `Result`, standing in for `None` and for raised exceptions.
- `Calendar` (calendar.dfy): naive Python dates and datetimes (years 1 to 9999, microseconds), their validity, and Python's field-by-field order. It adds an independent reference for that order, the `date.toordinal()` day number.
- `DateFormat` (date_format.dfy): `strptime(s, '%Y-%m-%d')` as CPython implements it, with a full characterization of the texts it accepts.
- `Customers` (customers.dfy): raw cell values, the `parse_signup_date` validator, one-row validation `CustomerData(**row)`, and the all-or-nothing batch comprehension.
- `RecentFilter` (recent_filter.dfy): the one-year cutoff and the `>=` filter.
- `Pipeline` (pipeline.dfy): the output name and the stages of `main` in order.

Grammar: the model follows CPython's grammar, not a strict zero-padded
`YYYY-MM-DD`. `%Y` takes exactly four digits. `%m` takes `1[0-2]|0[1-9]|[1-9]`.
`%d` takes `3[01]|[12]\d|0[1-9]|[1-9]| [1-9]`. So `2024-1-5` and `2024-01- 5`
are accepted. Leftover characters are rejected, and so are year 0 and days
past the end of the month (`DateFormat.ParseCharacterization`).

Raw values: the pandas and pydantic coercions come from foreign libraries, so
they are abstract. A cell value is either a `str` (`Text`) or something else
(`NonText`). Each value carries what pydantic's lax `int`, `str` and
`datetime` coercions make of it. `None` means the coercion rejects it.

Clock and I/O: the clock and the CSV reader are parameters. `now` is what
`datetime.now()` returned. `read` is the outcome of `read_csv_file`: the rows,
or the reason reading failed. The model's `Process` returns either the records
handed to the save step with the output name, or the error that stopped the
run.

Boundary day: a parsed signup sits at 00:00:00 and the cutoff keeps `now`'s
time of day, so a signup at midnight on the cutoff's calendar day is kept only
when `now` is exactly midnight (`RecentFilter.SameDayOneYearAgo`).

## Model

| member | source | states |
|---|---|---|
| `Calendar.DaysInMonth` | get_recent_customers.py:34 | months have 28 to 31 days, and 29 exactly for February of a leap year (the day limit `strptime` and the one-year shift use) |
| `DateFormat.MatchMonthAndDash` | get_recent_customers.py:34 | the `%m` group followed by `-` reads a month from 1 to 12 and ends just after a `-` |
| `DateFormat.MatchDay` | get_recent_customers.py:34 | the `%d` group reads a day from 1 to 31 within the text |
| `DateFormat.MatchPrefix` | get_recent_customers.py:34 | a match of the whole pattern captures a year of at most four digits, a month 1..12 and a day 1..31, and ends within the text |
| `DateFormat.ParseYmd` | get_recent_customers.py:34 | a successful `strptime(s, '%Y-%m-%d')` is a valid calendar datetime at 00:00:00 |
| `DateFormat.ParseCharacterization` | get_recent_customers.py:34 | `strptime` returns date d at midnight if and only if d is a valid date (years 1..9999, day within the month) and s is one of its spellings: four-digit year, `-`, a zero-padded or one-digit month, `-`, a zero-padded, one-digit or space-padded day |
| `DateFormat.ParseSpelling` | get_recent_customers.py:34 | every spelling of a valid date parses back to that date at midnight |
| `DateFormat.ParsedIsSpelling` | get_recent_customers.py:34 | every text that parses is a spelling of the date it yields |
| `DateFormat.IsoRoundTrip` | get_recent_customers.py:34 | the zero-padded `YYYY-MM-DD` form of a valid date parses back to it; the same text with any non-empty tail is rejected as unconverted data |
| `DateFormat.WrongSeparatorRejected` | get_recent_customers.py:34 | a character other than `-` after the year makes the text not match the format |
| `DateFormat.ImpossibleDateRejected` | get_recent_customers.py:34 | a month/day pair that fits the pattern but is past the month's end (30 February) is rejected as out of range |
| `DateFormat.ExampleIsoDate` | get_recent_customers.py:34 | `2024-01-15` is 15 January 2024 at midnight |
| `DateFormat.ExampleUnpadded` | get_recent_customers.py:34 | `2024-1-5` is 5 January 2024 at midnight |
| `DateFormat.ExampleSlashes` | get_recent_customers.py:34 | `2024/01/15` does not match the format |
| `DateFormat.ExampleTrailingSpace` | get_recent_customers.py:34 | `2024-01-15 ` leaves unconverted data |
| `DateFormat.ExampleDay32` | get_recent_customers.py:34 | `2024-01-32` reads day 3 and leaves `2` unconverted |
| `DateFormat.ExampleMonth13` | get_recent_customers.py:34 | `2024-13-01` does not match the format |
| `DateFormat.ExampleLeapDays` | get_recent_customers.py:34 | 29 February is rejected in 2023 and accepted in 2024 |
| `DateFormat.ExampleYearZero` | get_recent_customers.py:34 | year `0000` matches the pattern but is out of range |
| `DateFormat.ExampleThirtiethOfFebruary` | get_recent_customers.py:34 | `2023-02-30` is rejected as out of range |
| `Customers.ParseSignupDate` | get_recent_customers.py:27-35 | a non-`str` value is returned unchanged; a `str` succeeds exactly when `strptime` does, giving `strptime`'s own result (a valid datetime at midnight on the date the text spells) or its error |
| `Customers.CoerceSignupDate` | get_recent_customers.py:24-35 | the field's value after the before-validator and datetime validation: for a `str`, present exactly when `strptime` succeeds and equal to its midnight result; otherwise the datetime coercion of the unchanged value |
| `Customers.SignupFromText` | get_recent_customers.py:27-35 | a validated record whose signup came as text holds a valid midnight datetime whose date the text spells |
| `Customers.SignupPassedThrough` | get_recent_customers.py:33-35 | a non-text signup reaches the record as the datetime its coercion yields |
| `Customers.ValidateRow` | get_recent_customers.py:12-25 | a row validates if and only if all four fields are present and coercible, and the record holds the coerced values; otherwise the error lists each failing field once, in declaration order, as missing when its column is absent and invalid otherwise |
| `Customers.Collect` | get_recent_customers.py:61 | evaluating the comprehension's elements left to right succeeds if and only if every element does, giving their values in order |
| `Customers.CollectStopsAtFirstError` | get_recent_customers.py:61-66 | the first raising element ends the comprehension with its own error |
| `Customers.CollectFailsAtSomeError` | get_recent_customers.py:61-66 | a comprehension that raised did so at some element preceded only by elements that did not |
| `Customers.ValidateRows` | get_recent_customers.py:60-61 | the batch succeeds if and only if every row validates; then it has one record per row, record i coming from row i |
| `Customers.FirstBadRowAborts` | get_recent_customers.py:61-66 | when row i is the first invalid row, the batch fails with row i's error and nothing else |
| `Customers.FailedBatchHasFirstBadRow` | get_recent_customers.py:61-66 | a failed batch's error is that of an invalid row preceded only by valid rows |
| `RecentFilter.OneYearBefore` | get_recent_customers.py:76 | the cutoff has the year decreased by one, the same month and time of day, and the same day except 29 February, which becomes 28 February of a non-leap year; it is valid and strictly before `now`; it fails only in year 1 |
| `RecentFilter.CutoffIsOneCalendarYear` | get_recent_customers.py:76 | the cutoff is 365 or 366 whole days before `now`, measured in `toordinal()` day numbers and elapsed microseconds |
| `Calendar.Before` | get_recent_customers.py:77 | Python's `<` on naive datetimes is irreflexive, and on valid datetimes agrees with comparing elapsed microseconds since 1 January of year 1 |
| `Calendar.AtOrAfter` | get_recent_customers.py:77 | Python's `a >= b` holds exactly when the two are equal or b is before a |
| `RecentFilter.IsRecent` | get_recent_customers.py:77 | the comprehension's condition holds exactly when the signup equals the cutoff or comes after it |
| `RecentFilter.KeepRecent` | get_recent_customers.py:77 | the filter keeps no more records than it is given; a record of the input is kept if and only if its signup is at or after the cutoff |
| `RecentFilter.KeepRecentSelectsInOrder` | get_recent_customers.py:77 | the kept records are a subsequence at increasing positions; a record is kept if and only if its signup is `>=` the cutoff, and every dropped record signed up strictly before it |
| `RecentFilter.KeepRecentAppend` | get_recent_customers.py:77 | filtering a concatenation is the concatenation of the filtered parts |
| `RecentFilter.KeepRecentIdempotent` | get_recent_customers.py:77 | filtering twice with the same cutoff equals filtering once |
| `RecentFilter.NothingRecentKeepsNothing` | get_recent_customers.py:77 | when every signup is before the cutoff, nothing is kept |
| `RecentFilter.MidnightSignupBoundary` | get_recent_customers.py:77 | a midnight signup is kept if and only if its date is after the cutoff's date, or equals it and the cutoff is at midnight |
| `RecentFilter.SameDayOneYearAgo` | get_recent_customers.py:76-77 | a signup at midnight on the cutoff's date is kept if and only if `now` is exactly midnight |
| `RecentFilter.FilterRecentCustomers` | get_recent_customers.py:68-83 | fails only when the cutoff leaves the calendar; otherwise returns exactly `KeepRecent` at the one-year cutoff: a given record is returned if and only if its signup is at or after the cutoff, in input order |
| `Calendar.DayNumberMonotone` | get_recent_customers.py:76-77 | for valid dates, one is earlier than another if and only if its day number is smaller, and equal dates have equal day numbers |
| `Pipeline.BaseName` | get_recent_customers.py:105 | the base name contains no `/`, is a suffix of the path, and is preceded by `/` when shorter than the path |
| `Pipeline.BaseNameUnique` | get_recent_customers.py:105 | those three properties determine the base name: it is the part after the last `/` |
| `Pipeline.OutputName` | get_recent_customers.py:105 | the output name is `proc__` followed by the input's base name |
| `Pipeline.OutputNameIsLocal` | get_recent_customers.py:105 | the output name contains no `/`, so the file is written in the current directory |
| `Pipeline.Process` | get_recent_customers.py:99-112 | the run saves if and only if reading, validation and the cutoff all succeed, and then under the output name; otherwise the first failing stage's error (read, validation, then filter) is the run's error and nothing is saved |
| `Pipeline.ProcessSavesRecentRows` | get_recent_customers.py:106-110 | a saving run saves exactly the records of the rows whose signup is at or after the cutoff, in row order |
| `Pipeline.AnyBadRowAborts` | get_recent_customers.py:106-112 | one invalid row anywhere ends the run with a validation error before the save step |
| `Pipeline.NothingRecentSavesEmpty` | get_recent_customers.py:106-110 | when every signup is older than the cutoff, the run still saves an empty set of records under the output name |

## Left out

- `read_csv_file` and `save_filtered_data_to_csv` (`pd.read_csv`, `df.to_csv`): file I/O and CSV parsing inside pandas. Rows enter as a parameter. The save step is represented by the records and the name handed to it, and its own failure is not modelled.
- Logging and log rotation (`logger.add`, every `logger.*` call): an observability side channel.
- The interactive `input()` prompt: I/O.
- `datetime.now()`: a parameter of `RecentFilter.FilterRecentCustomers` and `Pipeline.Process`.
- Pydantic's lax coercion rules for `int`, `str` and `datetime`, and pandas' dtype inference (NaN for empty cells, numpy integers): these are foreign library behaviour. Each value carries their outcome abstractly. In particular, an empty CSV cell reaches pydantic as NaN rather than `""`.
- Unicode digits: Python's `\d` in the `strptime` pattern also matches non-ASCII decimal digits. The model reads ASCII digits only.
- Time zones and `fold`: datetimes are naive, so comparing an aware signup with the naive cutoff (a `TypeError` in Python) is not modelled.
- `pd.Timestamp` range: the cutoff's range is Python's years 1 to 9999. pandas' narrower `Timestamp` bounds are not modelled.
- The written file for an empty result: the code builds `pd.DataFrame([])`, which has no columns, so no header row with the four field names can be written; what `to_csv` then writes is not modelled.
- `os.path.basename` is modelled with the POSIX separator `/` only; Windows' `\` is not.
- Run-to-run idempotence: the model is a function of the rows and `now`, so equal inputs give equal runs. The CSV bytes themselves are not modelled.

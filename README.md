# data_mockery calendar core, modelled in Dafny

`data_mocker/data_mockery.py` builds a fourth quarter of 2017 of mock sales rows. It samples
rows outside the third quarter and stamps each sampled row with synthetic calendar columns.
This project models the deterministic part of that script:

- **The date cursor** (`Date_Generator`, module `DateCursor`).
  - Each call hands out the current date.
  - Once the day's capacity has been handed out, the next call moves to the following day
    and restarts the counter.
  - The capacity `records_per_increment` is a constant or a function of the current date.
  - Dates are day ordinals, numbered as `date.toordinal` numbers them, so adding
    `timedelta(days=n)` is adding `n`.
  - The class `DateGenerator` holds the three mutable fields. Its `Next` is proved against
    the pure step function `Advance`.
  - `Calls` runs `k` calls in a row. The lemmas about `Calls` give the schedule:
    - a constant capacity `n` hands out `start + i / n` on call `i + 1`;
    - with a per-date capacity, each day `d` is handed out `Bar(cap, d)` times in a row;
    - a zero capacity raises `ZeroDivisionError` without touching the fields.
- **The label generators** (module `Labels`).
  - `get_string_generator` is a constant thunk.
  - `get_week_generator` advances its bound cursor once per call and returns
    `prefix + str(week)`.
  - `str` on ints is modelled with its inverse, so labels can be read back.
- **Column normalisation** (module `Columns`).
  - The loop of `withColumnRenamed(column, column.replace(".", "_"))` calls.
  - The five `list.remove` calls that drop the calendar columns. Each removes the first
    occurrence and raises `ValueError` when the name is absent.
- **The run's constants** (module `Mockery`).
  - The run starts on 2017-10-01 and lasts 92 days at 59 records a day.
  - These values fill exactly 2017-10-01 to 2017-12-31.
  - The sampling fraction is the target over the eligible population.

Raised exceptions are values of `Outcomes.Result`.

Behaviour of the code that the model keeps:

- A zero capacity raises `ZeroDivisionError` at the division on line 78, before any field
  is written. `Advance` returns that error and the fields stay as they were.
- A negative capacity makes `int(indx / bar)` negative, so the date walks backwards one day
  at a time.
- When the date moves, the counter is set to 0 (line 84) and then incremented to 1 in the
  same call (line 85).
- The week label is made from the date that the week generator's own cursor call returned
  (line 104). In `main` that cursor is a second `Date_Generator`, separate from the one
  feeding `Week.Day`.
- Nothing bounds the sampling fraction by 1. `SamplingFraction` shows the fraction is at
  most 1 exactly when the population has at least 5428 rows.

## Model

| member | source | states |
|---|---|---|
| DateCursor.TruncDivSpec | data_mocker/data_mockery.py:78 | `int(indx / bar)` for a non-negative counter is the quotient truncated toward zero. Its magnitude times \|bar\| is at most the counter, with a remainder below \|bar\|. Its sign follows bar's. |
| DateCursor.Bar | data_mocker/data_mockery.py:73-76 | `increment_bar` is the plain int itself when the capacity is an int, and the function applied to the current date when it is a function. |
| DateCursor.Advance | data_mocker/data_mockery.py:72-86 | One call. It raises `ZeroDivisionError` exactly when the day's capacity is 0. Otherwise it returns the new current date. From a consistent state it keeps `start_date == current_date` and `indx <= \|capacity\|`. It stays on the day and counts up by one, or moves one day in the direction of the capacity's sign with the counter at 1. |
| DateCursor.ConstCapacityDates | data_mocker/data_mockery.py:72-86 | With a constant capacity n > 0, from a fresh cursor, call i + 1 returns `start + i / n`. After k calls the fields are `(start + (k-1)/n, start + (k-1)/n, (k-1)%n + 1)`. |
| DateCursor.CallsSplit | data_mocker/data_mockery.py:72-86 | A run of a calls followed by a run of b calls from where it stopped is a run of a + b calls with the dates concatenated. |
| DateCursor.RestOfDay | data_mocker/data_mockery.py:78-85 | Having handed out day d j times, the next `capacity(d) - j` calls all return d. The counter ends at the capacity. |
| DateCursor.DayFull | data_mocker/data_mockery.py:78-85 | Once day d is full, the next call moves to d + 1, restarts the counter and counts it once. |
| DateCursor.PerDayCapacitySchedule | data_mocker/data_mockery.py:73-85 | With any capacity positive on every day, a fresh cursor's first `Total` calls hand out the start day `capacity(start)` times, then each next day `capacity(d)` times, in order. The cursor ends full on the last day. |
| DateCursor.ZeroCapacityRaises | data_mocker/data_mockery.py:73-78 | A zero capacity on the current day makes any run of calls raise `ZeroDivisionError`. |
| DateCursor.DateGenerator.constructor | data_mocker/data_mockery.py:60-70 | `__init__` stores the start date and capacity, with the counter at 0 and the current date equal to the start. |
| DateCursor.DateGenerator.Next | data_mocker/data_mockery.py:72-86 | `date_generator` returns what `Advance` returns and leaves exactly `Advance`'s new fields. On an error every field is unchanged. The consistency invariant is preserved. |
| DateCursor.DateGenerator.GetDateGenerator | data_mocker/data_mockery.py:88-94 | The returned generator is this object, so its calls advance this cursor's fields. |
| Labels.StringGenerator | data_mocker/data_mockery.py:96-100 | The thunk returns the captured value on every call. |
| Labels.IntToDecimal | data_mocker/data_mockery.py:105 | `str(n)` is a nonempty string that starts with `-` if and only if n is negative. |
| Labels.IntToDecimalDigits | data_mocker/data_mockery.py:105 | After the sign, `str(n)` is digits only, with no leading zero unless it is `0`. |
| Labels.WeekLabel | data_mocker/data_mockery.py:105 | `str(string) + str(week)` starts with the prefix, and the rest reads back as the week number. |
| Labels.IntToDecimalRoundTrip | data_mocker/data_mockery.py:105 | `str` of an int reads back as the same int. |
| Labels.WeekLabelRoundTrip | data_mocker/data_mockery.py:105 | A week label starts with the prefix. The week number reads back from the rest. |
| Labels.WeekLabelInjective | data_mocker/data_mockery.py:105 | Two labels with one prefix are equal if and only if their week numbers are. |
| Labels.WeekGenerator.constructor | data_mocker/data_mockery.py:102-106 | `get_week_generator` captures the prefix and the bound date cursor. |
| Labels.WeekGenerator.Next | data_mocker/data_mockery.py:103-105 | Each call advances the bound cursor exactly once, as `Advance` does. It returns `prefix + str(isoWeek(d))` for the date d that call returned. A cursor error propagates and moves nothing. |
| Columns.Rename | data_mocker/data_mockery.py:121 | `column.replace(".", "_")` keeps the length and leaves no `.`. Each `.` becomes `_`, and every other character is kept. |
| Columns.RenameIdempotent | data_mocker/data_mockery.py:121 | Renaming twice is renaming once. |
| Columns.RenameKeepsDotless | data_mocker/data_mockery.py:121 | A name without `.` is left as it is. |
| Columns.WithColumnRenamed | data_mocker/data_mockery.py:121 | Every column equal to the existing name gets the new name. The others are unchanged. |
| Columns.RenameColumns | data_mocker/data_mockery.py:119-121 | The loop over the original names leaves column j renamed to `Rename(columns[j])`, for every j. |
| Columns.RemoveFirst | data_mocker/data_mockery.py:124-128 | `list.remove` fails with a `ValueError` if and only if the name is absent; the model tags that error with the call's argument. Otherwise it removes one copy and keeps every other element. |
| Columns.RemoveFirstAt | data_mocker/data_mockery.py:124-128 | The copy removed is the first occurrence. The rest keeps its order. |
| Columns.RemoveEach | data_mocker/data_mockery.py:123-128 | Removing names in turn fails only with a `ValueError`, tagged with the argument of the removal that failed, which is one of the names. On success the length drops by their number. |
| Columns.RemoveEachMultiset | data_mocker/data_mockery.py:123-128 | A successful run of removals takes away exactly one copy of each name. |
| Columns.RemoveEachSucceeds | data_mocker/data_mockery.py:123-128 | For distinct names, the removals succeed if and only if every name is present. On a failure the failing removal's argument is one that is missing. |
| Columns.DropCalendarColumnsFails | data_mocker/data_mockery.py:123-128 | The five calendar removals succeed if and only if all five names are present. On a failure the `ValueError` comes from the removal of a missing one, whose argument the model records. |
| Columns.DropCalendarColumns | data_mocker/data_mockery.py:124-128 | The five removals either leave five fewer columns or fail with a `ValueError` from the removal of one of the five calendar names. |
| Columns.DropCalendarColumnsKeeps | data_mocker/data_mockery.py:123-128 | On success five names are gone, one copy each. Every non-calendar column survives with its multiplicity and order. |
| Columns.DropCalendarColumnsExact | data_mocker/data_mockery.py:123-128 | When each calendar column occurs exactly once, the result is the column list with those five filtered out, in the original order. |
| Columns.DocumentedSchemaDrops | data_mocker/data_mockery.py:118-128 | For the 28-column schema the script documents, renaming and dropping leaves the 23 non-calendar columns in order. |
| Mockery.Ordinal | data_mocker/data_mockery.py:132 | `date(y, m, d)` as a day number, with 0001-01-01 as day 1. The date is the n-th day of its year for some n between 1 and the year's length. |
| Mockery.OrdinalNextDay | data_mocker/data_mockery.py:79 | The next calendar date, across month and year ends, has the next day number. So `+ timedelta(days=n)` is `+ n` on day numbers. |
| Mockery.RunSpansFourthQuarter | data_mocker/data_mockery.py:132-133 | 2017-10-01 is ordinal 736603. Its 92nd day is 2017-12-31 and the day after is 2018-01-01. |
| Mockery.MainLabels | data_mocker/data_mockery.py:153-156 | The three constant generators return 2017, "2017 HY2" and "2017 Q4". A Quarter.Week label starts with "2017 Week " and its week number reads back. |
| Mockery.HardCodedRun | data_mocker/data_mockery.py:132-135 | `92 * 59 = 5428`. The first 5428 calls of a cursor at 59 a day all return one of the 92 days. Call 5428 returns the 92nd day and call 5429 would return the 93rd. |
| Mockery.HardCodedRunFillsEachDay | data_mocker/data_mockery.py:132-135 | The 5428 calls hand out each of the 92 days exactly 59 times, in order, and end full on 2017-12-31. |
| Mockery.PopulationCount | data_mocker/data_mockery.py:137 | The eligible rows are at most all rows. There are none if and only if every row's quarter is null or "2017 Q3". |
| Mockery.PopulationCountIsEligibleRows | data_mocker/data_mockery.py:137 | The count equals the number of row positions whose Half_Quarter is present and not "2017 Q3". |
| Mockery.SamplingFraction | data_mocker/data_mockery.py:138 | A zero population raises `ZeroDivisionError`. Otherwise the fraction times the population is the target, and the fraction is at most 1 if and only if the population is at least the target. |

## Left out

- Spark session creation, CSV reading and writing and `df.show()` (lines 111-116, 169-172). These are I/O through a library not visible here.
- UDF wrapping and distributed evaluation (lines 143-167). Spark may serialise the closures and run them per partition or in parallel. The model gives the sequential semantics of one generator object. The two separate cursors for `Week.Day` and `Quarter.Week` appear only as two `DateGenerator` objects.
- `df_population.sample(False, fraction)` (line 140). This is random sampling.
- The ISO 8601 week number (`date.isocalendar()[1]`). It is a function value `isoWeek` supplied by the caller.
- The `'function' in str(type(...))` test (line 73). It is replaced by the `Capacity` datatype, `Const` or `PerDate`.
- The `config` module, argv flags, the catch-all exception printer and the usage text (lines 174-203), and the debug prints. `num` is printed but unused, because the record count is fixed at line 135.
- Python's date range: ordinals are unbounded integers, so stepping past year 9999 or before year 1 does not raise `OverflowError` here.
- Spark's case-insensitive column resolution in `withColumnRenamed`. Names are compared exactly.
- `str(string)` of a non-string prefix. The prefix is a string in the model.
- TruncDiv: Python's `/` is float division. It equals the exact quotient only while the counter and capacity are below 2^53, and the model uses the exact quotient.
- SamplingFraction: an exact rational, not a float. Rounding of `5428 / count` is not modelled.
- `list.remove`'s error: Python raises `ValueError` with the fixed message "list.remove(x): x not in list", which does not name the column; the name in `ValueError(name)` is the model's record of which removal failed.
- PopulationCount: only the `Half_Quarter` column is modelled, as an optional string per row. The other columns and the DataFrame are not.

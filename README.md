# Rainfall gap filling, modelled in Dafny

This project models the data logic of the rainfall processing app
`rfprocess_code.py`. The app takes a spreadsheet of daily rainfall readings
(RF) for several monitoring stations ("Places"), each with a longitude and a
latitude. It also takes a target year, read from the uploaded file's name.
It then:

- reads the year from the file name: the first run of four digits;
- normalises the rows: an empty Year becomes the target year, an empty Mth
  becomes 1 and an empty Day becomes 1, and the three columns become one Date;
- fills the gaps: for every place, in order of first appearance, it adds one
  sentinel row (RF = -99.9, with the Lng and Lat of that place's first row)
  for every day of the target year that the place has no row for, and counts
  those days;
- combines the real and the sentinel rows, real rows first. It drops rows
  whose (Place, Date) key was already seen and sorts by (Place, Date);
- pivots the result into a Date by Place matrix of RF;
- reports the missing days as a percentage of places times days-in-year.

Modules, one per file:

- `Calendar` (`calendar.dfy`): leap years, the month table, day order, the
  days a pandas Timestamp can hold, and the full calendar of a year.
- `FileName` (`filename.dfy`): the year in a file name.
- `Rows` (`rows.dfy`): raw and normalised rows, the (Place, Date) key and its
  order, and the error outcomes.
- `Normaliser` (`normaliser.dfy`): defaulting and date construction.
- `GapFill` (`gapfill.dfy`): unique places, missing dates, sentinel rows, and
  the per-place loop as the method `FillGaps`.
- `Merge` (`merge.dfy`): keep-first deduplication, the sort, and the pivot.
- `Report` (`report.dfy`): the percentage.
- `Pipeline` (`pipeline.dfy`): `process_data` as the method `ProcessData`,
  and the end-to-end guarantees.
- `Wrappers` (`wrappers.dfy`): `Option` and `Result`.

Modelling choices:

- The model follows pandas 2.x with nanosecond Timestamps. Under these
  semantics the chained `fillna(..., inplace=True)` calls on lines 27-29 fill
  the empty cells of the frame itself.
- A spreadsheet is a `seq` of rows. Empty cells in Year, Mth and Day are
  `None`. RF, Lng and Lat are `real`; the sentinel is the constant -99.9.
- A date is a (year, month, day) triple. It is valid when it is a Gregorian
  calendar day and lies inside the range of a nanosecond pandas Timestamp,
  1677-09-22 to 2262-04-11 at midnight. `pd.to_datetime` raises outside that
  range. For a four-digit target year, `pd.date_range` raises exactly when the
  year lies outside 1678..2261.
- The percentage is an exact rational built from the two integer counts.

Behaviour of the code that the model makes explicit:

- Deduplication keeps the first row of each key, because `drop_duplicates`
  defaults to `keep='first'`. Real rows come before sentinel rows, so a real
  reading always wins over a sentinel.
- Every visited place has a first row, because the places are taken from the
  rows themselves (`PlacesOfData`).
- An upload with no rows makes `process_data` raise at line 33: the
  row-wise join yields no Series, and `pd.to_datetime` then finds no month
  column. Were it to get past that, line 59 would divide by zero places.
  Both are modelled as the one error `NoPlaces`.
- A four-digit target year outside pandas' Timestamp range makes
  `pd.date_range` raise on the first place. It is modelled as the error
  `YearOutOfRange`.
- Whatever algorithm `sort_values` uses, the keys are unique after
  deduplication, so any sort by (Place, Date) gives the same result
  (`StrictlySortedDetermined`). The model sorts by insertion.

## Model

| member | source | states |
|---|---|---|
| Calendar.YearDatesLength | rfprocess_code.py:8-9 | The month table gives a year 366 days exactly when it is a leap year by `IsLeapYear` (divisible by 4, and not by 100 unless by 400), and 365 days otherwise (`DaysInYear`). This equals the days-in-year used for the percentage at line 58. |
| Calendar.YearDatesExact | rfprocess_code.py:43 | The full range of the target year holds exactly the Gregorian calendar days of that year. |
| Calendar.YearDatesAscending | rfprocess_code.py:43 | The full range is strictly increasing, so it lists no day twice. |
| Calendar.YearInRangeIffRepresentable | rfprocess_code.py:43 | The calendar of year y can be built (every day is a Timestamp) exactly when 1678 <= y <= 2261. |
| FileName.FindFourDigits | rfprocess_code.py:14 | The scan returns the leftmost position at or after its start where four digits begin, or nothing when there is no such position. |
| FileName.ExtractYear | rfprocess_code.py:13-15 | No year exactly when the name has no four consecutive digits. Otherwise the year is the value of the leftmost four-digit run, at most 9999. |
| FileName.ExtractYearExamples | rfprocess_code.py:13-15 | "rain_2019_data.xlsx" gives 2019, "x12345" gives 1234, "rain.xlsx" gives no year. |
| Normaliser.Normalise | rfprocess_code.py:27-34 | Succeeds exactly when every row's defaulted (Year, Mth, Day) is a valid date. Output row i keeps row i's Place, RF, Lng and Lat. Its date takes Year or the target year, Mth or 1, and Day or 1. On failure it names the first invalid row. |
| GapFill.FirstRow | rfprocess_code.py:46 | Returns the first row of a place: that row has the place and no earlier row does. Returns the row count when the place has no row. |
| GapFill.UniquePlaces | rfprocess_code.py:37 | The places are exactly those that have a row, with no repeats, in order of first appearance. |
| GapFill.AbsentMembers | rfprocess_code.py:44 | The set difference keeps exactly the dates of the range that are not present. |
| GapFill.MissingDatesMembers | rfprocess_code.py:43-44 | A date is missing for a place exactly when it is a day of the target year with no row for that place. So missing and present days are disjoint and together cover the year. |
| GapFill.MissingDatesAscending | rfprocess_code.py:44 | A place's missing dates are strictly increasing, so there is one per absent day. |
| GapFill.MissingDatesCount | rfprocess_code.py:44-45 | A place has at most days-in-year missing dates. It has none exactly when it has a row for every day, and days-in-year exactly when it has no row in that year. |
| GapFill.GapRowsExact | rfprocess_code.py:45-48 | A row is a sentinel row exactly when it has a visited place, a day of the year that place lacks, RF -99.9, and the Lng and Lat of the place's first row. No two sentinel rows share a key. |
| GapFill.GapRowsCount | rfprocess_code.py:45 | The number of sentinel rows is at most places times days-in-year. It is zero exactly when every place is complete, and the maximum exactly when no place has a row in the year. |
| GapFill.FillGaps | rfprocess_code.py:37-48 | The loop fails exactly when there is a place and the year is out of range. Otherwise it visits the unique places and leaves `missing_data` equal to their sentinel rows and `total_missing_days` equal to their number. |
| Merge.DedupKeepsFirst | rfprocess_code.py:51 | A row survives deduplication exactly when it is the first row with its (Place, Date) key. No key survives twice. |
| Merge.DedupIdempotent | rfprocess_code.py:51 | Deduplicating rows whose keys are already unique changes nothing. |
| Merge.Sort | rfprocess_code.py:51-52 | The result is ordered by (Place, Date) and is a permutation of the input. |
| Merge.SortStrict | rfprocess_code.py:51-52 | Sorting rows with distinct keys gives a strictly increasing (Place, Date) order. |
| Merge.StrictlySortedDetermined | rfprocess_code.py:51-52 | Two strictly ordered arrangements of the same rows are equal, so the sort algorithm does not matter. |
| Merge.CombineSpec | rfprocess_code.py:51-52 | Suppose sentinel keys are distinct and absent from the real rows. Then the combined rows are the first real row of each key plus every sentinel row, strictly ordered, with unique keys. |
| Merge.PivotCells | rfprocess_code.py:55 | The matrix has a cell for exactly the keys of the rows, each under one of its date and place labels. With unique keys each cell holds its one row's RF. |
| Rows.KeyOrder | rfprocess_code.py:51-52 | The (Place, Date) order, with Python's string order on places, is a strict total order. |
| Report.PercentBounds | rfprocess_code.py:58-59 | With missing <= expected, the percentage lies in [0, 100]. It is 0 exactly when nothing is missing and 100 exactly when everything is. |
| Pipeline.KeyInData | rfprocess_code.py:44 | A real row has key (p, d) exactly when d is among the dates of place p. |
| Pipeline.PlacesOfData | rfprocess_code.py:37 | Every row's place is a visited place and every visited place has a first row. There is a place exactly when there is a row. |
| Pipeline.GapRowsAbsentFromData | rfprocess_code.py:43-47 | No sentinel row has the key of a real row. |
| Pipeline.CombinedRows | rfprocess_code.py:41-52 | The combined rows have no repeated key and are strictly ordered by (Place, Date). They are exactly the first real row of each key plus the sentinel rows. A real row is kept over a sentinel one. Every place has a row for every day of the target year. |
| Pipeline.MissingShare | rfprocess_code.py:57-59 | On a non-empty upload the percentage lies in [0, 100]. It is 0 exactly when every place has every day, and 100 exactly when no place has a row in the year. |
| Pipeline.CombinedDatesValid | rfprocess_code.py:43-52 | When the year is in range, every combined row holds a valid, representable date. |
| Pipeline.SuccessGuarantees | rfprocess_code.py:41-59 | On a non-empty upload with a year in range, the combined rows have unique keys, are strictly ordered and hold valid dates, and the percentage lies in [0, 100]. |
| Pipeline.ProcessData | rfprocess_code.py:19-61 | Error outcomes: the first invalid row, then an out-of-range year when there is a place, then no places. On success it returns the combined rows, sentinel rows, pivot and percentage. The combined rows are strictly ordered with unique keys and valid dates, and the percentage is in [0, 100]. |

## Left out

- The Streamlit page in `main`: title, uploader, banner, tables and download buttons. These are presentation and I/O. The caller's check that a name has no year is `ExtractYear` returning `None`.
- Reading the Excel file (`pd.read_excel`) and writing CSV (`to_csv().encode('utf-8')`). These are foreign I/O. A spreadsheet is a sequence of rows.
- Missing columns. A sheet without Year, Mth, Day, Place or RF makes pandas raise `KeyError`. Lng and Lat are read only while building sentinel rows (line 46), so a sheet without them raises only when some place misses a day. Every modelled row has all of these fields.
- The optional `temp` column and any other extra column. Rows carry only Place, Year, Mth, Day, RF, Lng and Lat, so dropping `temp` has nothing to act on.
- Normaliser.Normalise: Year, Mth and Day are integers. A fractional cell, which `astype(int)` truncates, is not modelled.
- Normaliser.Normalise: the text round trip (`astype(str)`, `'-'.join`, `pd.to_datetime`) is modelled as direct construction from the triple. pandas' reading of years with fewer than four digits is not modelled: such years fall outside the Timestamp range here.
- FileName.ExtractYear: `\d` is taken as the ASCII digits 0-9. Python also matches other Unicode decimal digits.
- Merge.PivotCells: only the pivot's shape and cells are modelled, with its row and column labels as sets. Their sorted presentation and the floating-point `mean` are left out. Every cell gets exactly one value (`Pipeline.CombinedRows`), so the mean of that one value is the value.
- The percentage (`Report.MissingPercent`) is computed as an exact rational. The float rounding and the two-decimal display are left out.
- NaN in Place, RF, Lng or Lat is not modelled.
- GapFill.FillGaps: target years 1-99 are modelled as `YearOutOfRange`. In the code, `f'{year}-01-01'` then has fewer than four year digits and pandas' fallback date parser reads it differently: '50-01-01' becomes 2050-01-01, and for years 1-31 the start and end strings land in different years ('5-01-01' becomes 2001-05-01, '5-12-31' becomes 2031-05-12). The loop then runs over that range instead of raising, which can count thousands of missing days. That parser is not modelled, and neither is pandas' reading of three-digit years.
- Pipeline.ProcessData: for target years 1-99 it returns `YearOutOfRange`, as `FillGaps` does. The code goes on with the calendar that the fallback parser produces, and can report a percentage above 100.
- pandas 3 Copy-on-Write semantics are not modelled. Under them the chained `fillna(..., inplace=True)` calls change nothing, and an empty Year, Mth or Day cell makes `astype(int)` raise.

# Bikeshare statistics: a Dafny model of the filter-and-aggregate pipeline

`bikeshare.py` answers questions about the trip log of one of three cities.
`load_data` keeps the trips of a chosen month and weekday. `time_stats`,
`station_stats`, `trip_duration_stats` and `user_stats` then compute the
popular times of travel, the popular stations and trip, the total and mean
trip duration, and counts of user types and genders along with birth-year
extremes. `display_rows` pages through the filtered trips five rows at a
time, from the top or from the bottom.

This project models that pipeline once the CSV rows have been read:

- `wrappers.dfy` (`Wrappers`): `Option` and `Result`.
- `text.dfy` (`Text`): `str.lower()` on weekday names, and Python's string
  order, which pandas uses to sort tied modes.
- `aggregates.dfy` (`Aggregates`): the pandas operations the statistics rely
  on, over sequences. These are boolean-mask selection (`Where`), `value_counts`
  (`ValueCounts`), `mode()[0]` (`Mode`), `min`, `max` and `sum`.
- `trips.dfy` (`Trips`): a trip record with its derived month, weekday and
  hour, a city's dataset with the flags saying whether it has the Gender and
  Birth Year columns, and the columns as sequences.
- `loader.dfy` (`Loader`): `load_data`'s month-name lookup and its two masks.
- `statistics.dfy` (`Statistics`): the four statistic groups, returned as data
  instead of printed, plus a worked example of two January trips.
- `pager.dfy` (`Pager`): the paging loop of `display_rows` as a method over the
  number of rows, the direction and the user's replies.

Pandas' `mode()` returns the tied values sorted, so `mode()[0]` is the
smallest. `Mode` is proved to return the value of maximal frequency that is
smallest under a strict total order: `<` on integers, and Python's code-point
order on strings. `mode()[0]` of an empty column raises in pandas, and the
model returns `Err(NoMode)` for it. The sum of an empty column is 0, and its
mean (NaN in pandas) is `None`.

Column presence is dataset-wide: `Dataset.hasGender` and
`Dataset.hasBirthYear` stand for `'Gender' in df.columns` and
`'Birth Year' in df.columns`. Inside a present column a record's value may
still be missing (NaN), so `gender` and `birthYear` are `Option`s. As in
pandas, `value_counts`, `min`, `max` and `mode` skip the missing values.
A Birth Year column whose values are all missing makes `mode()[0]` raise.
By then the user-type and gender counts have been printed, so `UserStatsOf`
still returns them and reports `Err(NoMode)` in the birth-year section only.

Two details of `load_data` shape the contracts:

- the month filter is the month's name, turned into 1..6 by `months.index`.
  A name outside the list raises `ValueError` (`Err(UnknownMonth)` here).
- only the record's weekday is lower-cased before the comparison, not the
  filter value. The prompt lower-cases the filter, so together they compare
  case-insensitively, but `load_data` alone does not.

## Model

| member | source | states |
|---|---|---|
| `Loader.DataFile` | bikeshare.py:6-8 | `CITY_DATA` has a file exactly for the three city names the prompt accepts (line 20); any other name is the `KeyError` case |
| `Loader.IndexOf` | bikeshare.py:62 | `list.index`: the first position holding the value, and `None` (the `ValueError`) exactly when the value is absent |
| `Loader.MonthNumber` | bikeshare.py:61-62 | a month name has a number exactly when it is one of `january`..`june`; the number is in 1..6 and names that month |
| `Loader.MonthNumberRoundTrip` | bikeshare.py:61-62 | looking up the name of month k, for k in 1..6, gives back k |
| `Loader.Keeps` | bikeshare.py:58-67 | a record passes exactly when the month filter is `all` or the record's month number names the filter in `january`..`june`, and the day filter is `all` or equals the record's lower-cased weekday |
| `Loader.LoadData` | bikeshare.py:58-69 | fails exactly for a month filter that is neither `all` nor a listed month; keeps the column flags; every kept record is an input record that passes both tests; `all`/`all` returns the input unchanged |
| `Loader.LoadDataIsOneMask` | bikeshare.py:58-69 | the month mask followed by the weekday mask selects what one mask testing both filters selects |
| `Loader.LoadDataSelects` | bikeshare.py:58-69 | the output is the input records at increasing positions, and a position is kept if and only if its record passes both tests: an order-preserving subsequence that drops no passing record |
| `Text.Lower` | bikeshare.py:67 | `str.lower()` keeps the length and lower-cases each character |
| `Text.Less` | bikeshare.py:103 | Python's `<` on `str`: `a < b` exactly when `a` is a proper prefix of `b`, or at the first position where they differ `a` has the smaller code point |
| `Aggregates.StringLessOrder` | bikeshare.py:103 | Python's string comparison, used by pandas to sort tied modes, is irreflexive, transitive and total |
| `Aggregates.Where` | bikeshare.py:63 | boolean-mask selection: no longer than the input, and keeps only input elements that pass |
| `Aggregates.WhereIndices` | bikeshare.py:63 | mask selection gives exactly the passing positions, in increasing order |
| `Aggregates.WhereWhere` | bikeshare.py:63-67 | two masks in a row equal one mask testing both |
| `Aggregates.ValueCounts` | bikeshare.py:144 | `value_counts()`: one entry per distinct value and no other, each holding its positive number of occurrences, the counts adding up to the column's length |
| `Aggregates.Mode` | bikeshare.py:80 | `mode()[0]`: none exactly for an empty column; otherwise a value of the column that no value outnumbers, the smallest of those tied |
| `Aggregates.ModeUnique` | bikeshare.py:80 | under a strict total order at most one value meets that definition, so the mode is fully determined |
| `Aggregates.Min` | bikeshare.py:156 | `min()`: an element of the column and at most every element |
| `Aggregates.Max` | bikeshare.py:157 | `max()`: an element of the column and at least every element |
| `Aggregates.Present` | bikeshare.py:149 | the values pandas counts: missing values are skipped and each present value occurs exactly as often as in the column |
| `Aggregates.PresentComplete` | bikeshare.py:149 | with no missing value, nothing is skipped: the result has the column's length and holds its values position by position |
| `Aggregates.SumAppend` | bikeshare.py:126 | the sum of two columns laid end to end is the sum of their sums |
| `Statistics.TimeStatsOf` | bikeshare.py:78-90 | fails exactly on an empty record set; otherwise month, weekday and hour are each the mode of their column |
| `Statistics.FilteredPopularMonth` | bikeshare.py:59-80 | for a listed month, `load_data` succeeds, and if any trip is kept its popular month is the chosen month's number |
| `Statistics.FilteredPopularDay` | bikeshare.py:66-84 | with a valid month filter and a weekday filter, `load_data` succeeds, and if any trip is kept its popular weekday lower-cases to the chosen day |
| `Trips.TripKey` | bikeshare.py:111 | the `station_combination` key reads back as the start station, then " to ", then the end station |
| `Statistics.StationStatsOf` | bikeshare.py:102-112 | fails exactly on an empty record set; otherwise the start station, end station and `start + " to " + end` key are each the mode of their column |
| `Statistics.PopularTripIsSomeTrip` | bikeshare.py:111-112 | the popular trip is `start + " to " + end` of some record of the set |
| `Statistics.TotalDuration` | bikeshare.py:126 | `sum()` of `Trip Duration`: 0 for an empty set, and at least every single trip's duration |
| `Statistics.TotalDurationPrepend` | bikeshare.py:126 | the total of a non-empty set is the first trip's duration plus the total of the rest; with the empty case this fixes the total as the sum of the durations |
| `Statistics.DurationStatsOf` | bikeshare.py:125-130 | the total is `TotalDuration` of the set; the mean is absent exactly for an empty set, and otherwise mean × count = total |
| `Statistics.TotalDurationSplits` | bikeshare.py:126 | for any filter, the total travel time of the kept records plus that of the dropped records is the total of all |
| `Statistics.LoadDataTotalBound` | bikeshare.py:126 | filtering with `load_data` never raises the total travel time |
| `Statistics.BirthYearStatsOf` | bikeshare.py:155-161 | absent exactly for no birth year; otherwise earliest and most recent are members bounding every year, the most common is the mode, and earliest ≤ most common ≤ most recent |
| `Statistics.UserStatsOf` | bikeshare.py:143-163 | user-type counts for every dataset; gender counts over the present genders exactly when the Gender column exists; a birth-year section exactly when the Birth Year column exists, which is `Err(NoMode)` exactly when no birth year is present, and otherwise holds min, max and mode of the present years |
| `Statistics.UserTypeCountsAddUp` | bikeshare.py:144 | the user-type counts add up to the number of records |
| `Statistics.GenderCountsAddUp` | bikeshare.py:149 | with no missing gender, the gender counts add up to the number of records |
| `Statistics.GenderCountIsRecordCount` | bikeshare.py:148-149 | each gender count is the number of records with that gender |
| `Statistics.TwoTripsJanuaryKeepsBoth` | bikeshare.py:58-69 | two January trips filtered to January are both kept |
| `Statistics.TwoTripsFebruaryIsEmpty` | bikeshare.py:58-69 | filtered to February they give an empty set, which has no popular month, total 0 and no mean |
| `Statistics.TwoTripsPopular` | bikeshare.py:78-103 | their popular month is 1 and their popular start station "A" |
| `Statistics.TwoTripsHourTie` | bikeshare.py:88-89 | their hours 8 and 9 are tied, and the smaller hour is reported |
| `Statistics.TwoTripsDuration` | bikeshare.py:125-130 | their total is 900 seconds and their mean 450 |
| `Statistics.TwoTripsUserTypes` | bikeshare.py:144 | each of their two user types is counted once |
| `Pager.PageAtSlice` | bikeshare.py:181-184 | the slice `PageAt` gives for `start_loc`: from the top it starts at `start_loc` and ends at `start_loc + 5` or at `len`, never past `len`; from the bottom it ends at `len + start_loc + 5` and starts at `len + start_loc` or at row 0, never below 0; at most 5 rows, and exactly 5 when the page lies inside the rows |
| `Pager.StopsMeaning` | bikeshare.py:187 | the end test: the intended one stops exactly when the next page would be empty; the one as written also stops, from the bottom, when the next page would start at row 0 |
| `Pager.LeadingYes` | bikeshare.py:191-193 | the number of "yes" replies before the first other reply |
| `Pager.Browse` | bikeshare.py:179-193 | the pages printed are a prefix of all pages; with k leading "yes" replies it prints k + 1 pages, or all pages if there are fewer |
| `Pager.PagesInBounds` | bikeshare.py:179-187 | at least one page is printed; every page is a slice `lo:hi` with `0 <= lo <= hi <= len` of at most 5 rows, non-empty unless the set is empty, so no negative index reaches `iloc` |
| `Pager.IntendedPagesCoverAllRows` | bikeshare.py:179-187 | with the intended end test, pages from the top run from row 0 to `len` and pages from the bottom from `len` down to row 0, each starting where the previous ended |
| `Pager.FirstPagesAgree` | bikeshare.py:187 | from the top, `display_rows`'s end test pages exactly as the intended one |
| `Pager.AsWrittenBottomMissesFirstRow` | bikeshare.py:184-187 | as written, from the bottom with more than 5 rows, no page ever includes row 0 |
| `Pager.AsWrittenBottomSevenRows` | bikeshare.py:184-187 | as written, 7 rows from the bottom print rows 2..6 only; the intended test also prints rows 0..1 |

## Left out

- Reading the CSV file (`pd.read_csv`, line 49). The model starts from the rows already read. `Loader.DataFile` covers only the `CITY_DATA` lookup.
- Parsing `Start Time` and deriving month, weekday name and hour (lines 52-56, 79, 88). These are pandas calendar functions, so each record carries the derived values as fields.
- The prompt loops of `get_filters` (lines 11-42), the direction prompt of `display_rows` (lines 172-177), and the restart loop and call order of `main` (lines 196-210). These are console I/O. The city and month values the prompts allow are the constants `CITIES` and `MONTHS`.
- Wall-clock timing and all printing (for example lines 76 and 92). The statistics are returned as data.
- Pandas' per-round failure order. In `main`, an empty record set makes `time_stats` raise before the other groups run. In the model, each group reports its own result.
- The in-place columns the statistics add to the caller's frame (`month`, `hour`, `station_combination`; lines 79, 88, 111). They are modelled as pure column functions. Nothing in the program reads them back.
- Missing values in the columns that are always present (stations, user type, trip duration). These are modelled as always present.
- `Statistics.DurationStatsOf`: `Trip Duration` is a whole number of seconds and the mean is an exact real. Pandas uses floating point.
- `Aggregates.ValueCounts`: the entries are not sorted by descending count as pandas sorts them. The contract fixes the counts but not the order.
- `Text.Lower`: only ASCII letters are lower-cased, not all of Unicode. Pandas day names are ASCII.
- `Statistics.BirthYearStatsOf`: birth years are integers. Pandas reads them as floats (`1989.0`).
- `Pager.Browse`: the console replies are a parameter. Once they run out the answer is taken as "no", whereas `input()` would wait. Only the slice bounds of each page are modelled, not the rows printed.

## Findings

| source | as written | input that shows it | evidently intended | confidence | as-written member | corrected member |
|---|---|---|---|---|---|---|
| bikeshare.py:187 | From the bottom, the loop stops once `len(df) + start_loc <= 0`, tested after `start_loc` has moved down five. So it stops as soon as the next page would start at row 0 or above it, before that page is shown. | 7 rows, direction `bottom`: rows 2..6 are shown and the program prints "You've reached the end of the dataset"; rows 0..1 are never shown (with 10 rows, rows 0..4 are never shown) | stop once the page just shown has reached row 0, that is `len(df) + start_loc + 5 <= 0`, the mirror of the test used from the top | high, not executed | `Pager.AsWrittenBottomMissesFirstRow` | `Pager.IntendedPagesCoverAllRows` |

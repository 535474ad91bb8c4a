# Bikeshare explorer, modelled in Dafny

`bikeshare_2.py` is an interactive script over US bikeshare trip data. It asks
for a city (chicago, new york city, washington), a month (all, january … june)
and a day of the week (all, monday … sunday). It loads the city's CSV file and
narrows the trips to that month and weekday. It then reports the most common
travel times, the most popular stations and trip, the total trip duration and
user statistics. Chicago and New York City get the full user statistics:
user types, gender counts and birth years. Washington gets user types only.
Finally the script asks whether to start again.

This project models that core in Dafny and proves properties of it:

- `text.dfy` (module `Text`): `str.lower()` and `str.title()`, ASCII only.
- `trips.dfy` (module `Trips`): one record per trip row with its index label
  and derived calendar fields; the `Option`/`Result` outcomes; the columns.
- `selection.dfy` (module `Selection`): boolean-mask row selection
  (`df[mask]`) and a reference filter `Where`, with their algebra.
- `aggregates.dfy` (module `Aggregates`): occurrence counts,
  `value_counts()` and `mode()[0]`.
- `filters.dfy` (module `Filters`): `CITY_DATA`, the `get_filters` prompts and
  `load_data`.
- `reports.dfy` (module `Reports`): `time_stats`, `station_stats`, the total of
  `trip_duration_stats`, `user_stats` (with the in-place `fillna(0)`) and
  `washington_user_stats`.
- `session.dfy` (module `Session`): one round of `main`, the per-city choice of
  user report, and the restart test.

Reading a file is a parameter `files` that maps a file name to its parsed rows.
Typed answers are a parameter `answers`, the sequence of lines the user enters.

The reporters raise on some selections, and the model keeps those errors as
`Err` results. `mode()[0]` on an empty column raises IndexError
(bikeshare_2.py:92, 115), so `TimeStats` and `StationStats` fail on no rows and
the round ends there. `user_stats` also raises IndexError at line 168 when the
rows have no birth year at all, because `mode()` drops empty cells and returns
nothing to index. On a round, that happens for Chicago and New York City
selections whose rows all lack a birth year.

## Model

| member | source | states |
|---|---|---|
| `Text.Lower` | bikeshare_2.py:22 | lower-casing keeps the length of the answer |
| `Text.LowerHasNoUpper` | bikeshare_2.py:22 | a lower-cased answer holds no upper-case letter |
| `Text.LowerIdempotent` | bikeshare_2.py:22 | lower-casing twice is lower-casing once |
| `Text.Title` | bikeshare_2.py:80 | `str.title()` keeps the length and which characters are letters, leaves every non-letter as it is, and capitalises a leading letter |
| `Text.TitleIdempotent` | bikeshare_2.py:80 | title-casing a title-cased string changes nothing |
| `Text.TitleOfLowerWord` | bikeshare_2.py:80 | a non-empty lower-case word gets its first letter capitalised and nothing else changed |
| `Text.TitleMatchesCapitalWord` | bikeshare_2.py:80 | a lower-case word title-cases to a capitalised name exactly when the name lower-cases to the word |
| `Selection.Where` | bikeshare_2.py:75 | the reference filter: keeps only elements that satisfy the condition, drops none that does, never grows |
| `Selection.Select` | bikeshare_2.py:75 | `df[mask]` never grows; an all-True mask keeps every row and an all-False mask keeps none |
| `Selection.SelectMaskIsWhere` | bikeshare_2.py:75 | `df[col == v]`: indexing by the comparison Series (MaskOf, one True/False entry per row) is the reference filter by that condition |
| `Selection.WhereIsSubsequence` | bikeshare_2.py:75 | the kept elements are a subsequence of the input: none added, none reordered |
| `Selection.WhereKeepsAll` | bikeshare_2.py:69-80 | a condition that holds everywhere keeps the whole input |
| `Selection.WhereCongruent` | bikeshare_2.py:75 | two conditions that agree on every element select the same rows |
| `Selection.WhereWhere` | bikeshare_2.py:75-80 | filtering by one condition and then another equals filtering once by their conjunction |
| `Selection.WhereCommutes` | bikeshare_2.py:75-80 | the order of two filters does not matter |
| `Selection.WhereIdempotent` | bikeshare_2.py:75 | filtering twice by the same condition is filtering once |
| `Selection.WherePreservesIncreasing` | bikeshare_2.py:75 | a filter keeps rows in increasing key order when the input was |
| `Selection.WhereAppend` | bikeshare_2.py:75 | filtering a concatenation is concatenating the filtered parts |
| `Aggregates.Count` | bikeshare_2.py:155 | an occurrence count is at most the length, and zero exactly when the value is absent |
| `Aggregates.CountAppend` | bikeshare_2.py:155 | counts add over concatenation |
| `Aggregates.Distinct` | bikeshare_2.py:155 | the distinct values: no repeats, and the same elements as the column both ways |
| `Aggregates.ValueCounts` | bikeshare_2.py:155 | every entry is a value of the column with its exact, positive count; values are not repeated; every value of the column has an entry |
| `Aggregates.ValueCountsTotal` | bikeshare_2.py:155 | the counts of `value_counts` add up to the length of the column |
| `Aggregates.Mode` | bikeshare_2.py:92 | no mode exactly for an empty column; otherwise a value of the column that occurs at least as often as any value |
| `Filters.CityChoicesAreKeys` | bikeshare_2.py:6-23 | the accepted city answers are exactly the keys of `CITY_DATA`, so the lookup at line 59 cannot fail on them |
| `Filters.IndexOf` | bikeshare_2.py:72 | `list.index`: absent exactly when `index` raises; otherwise the first position holding the value |
| `Filters.MonthNumber` | bikeshare_2.py:71-72 | a month name has a number exactly when it is listed; the number is in 1..6 and names that month |
| `Filters.MonthNumberIsPosition` | bikeshare_2.py:71-72 | each listed month gets its 1-based position: january 1 … june 6 |
| `Filters.MonthNumberInjective` | bikeshare_2.py:71-72 | different months get different numbers |
| `Filters.MonthChoicesAreNumbered` | bikeshare_2.py:30-72 | the accepted month answers are "all" and exactly the months `load_data` can number |
| `Filters.DayChoicesAreWeekdays` | bikeshare_2.py:38 | every weekday's lower-cased name is an accepted answer, and every accepted answer other than "all" is one |
| `Trips.WeekdayName` | bikeshare_2.py:66 | each `day_of_week` name is one capital letter followed by lower-case letters |
| `Trips.WeekdayNameInjective` | bikeshare_2.py:66 | different weekdays get different names |
| `Filters.DayFilterSelectsWeekday` | bikeshare_2.py:78-80 | for a lower-case answer other than "all", the day filter keeps a row exactly when its weekday's lower-cased name is that answer |
| `Filters.Matches` | bikeshare_2.py:69-80 | the condition a row is kept under: no month other than "all" or a listed one lets a row through, and "all"/"all" keeps every row (Keep passes it to Where) |
| `Filters.Filtered` | bikeshare_2.py:69-82 | the rows `load_data` returns: never more than were loaded, each one matching, and none for a month outside the list |
| `Filters.FilteredAllAll` | bikeshare_2.py:69-82 | month and day both "all" return the loaded rows unchanged and in order |
| `Filters.FilteredKeepsMatches` | bikeshare_2.py:69-80 | a row is returned exactly when it is a loaded row matching the month and the day |
| `Filters.FilteredIsSubsequence` | bikeshare_2.py:69-80 | the returned rows are the loaded rows with some left out and none reordered |
| `Filters.FilteredKeepsLabels` | bikeshare_2.py:59-80 | on a freshly read file the returned rows keep their file positions as labels, in increasing order, and row i is returned exactly when it matches |
| `Filters.MonthThenDay` | bikeshare_2.py:69-80 | the month narrowing followed by the day narrowing is the combined filter |
| `Filters.DayThenMonth` | bikeshare_2.py:69-80 | narrowing by day first gives the same rows |
| `Filters.FilteredIdempotent` | bikeshare_2.py:69-80 | filtering the returned rows again with the same choices changes nothing |
| `Filters.FirstAccepted` | bikeshare_2.py:21-26 | what a prompt loop takes reading from a position: none exactly when no later answer lower-cases to a choice; otherwise the lower-cased answer, which is a choice, with every answer before it rejected, and the position just after it |
| `Filters.FirstAcceptedAt` | bikeshare_2.py:21-26 | an accepted answer after only rejected ones is the one the prompt takes |
| `Filters.Prompt` | bikeshare_2.py:21-26 | the loop takes exactly what FirstAccepted describes, and reads to the end of the answers when none is accepted |
| `Filters.SelectionFrom` | bikeshare_2.py:10-44 | the three prompts in turn, each reading on from where the one before stopped; a selection reads at least three answers (one per prompt) and no more than there are |
| `Filters.SelectionIsValid` | bikeshare_2.py:10-44 | a selection has a city that is a key of `CITY_DATA`, a month that is "all" or numbered, and an accepted day |
| `Filters.ValidAnswersSelect` | bikeshare_2.py:10-44 | three valid answers in a row, in any mix of cases, are the selection, lower-cased, and nothing after them is read |
| `Filters.InvalidCityIsSkipped` | bikeshare_2.py:21-26 | an invalid city answer is read and skipped: the selection is the one made from the next answer on |
| `Filters.GetFilters` | bikeshare_2.py:10-44 | returns a selection exactly when the three prompts in turn each take an answer; it is their lower-cased first accepted answers and `used` counts every answer read; it is valid for `load_data` |
| `Filters.LoadData` | bikeshare_2.py:47-82 | an unknown city raises KeyError, a missing file FileNotFound, an unlisted month ValueError; otherwise the result is the loaded rows filtered by month and day |
| `Reports.TimeStats` | bikeshare_2.py:85-102 | fails with IndexError exactly on no rows; otherwise the calendar name of a most common month, a most common weekday and a most common hour |
| `Reports.MostFrequentTrip` | bikeshare_2.py:123 | none exactly on no rows; otherwise a (start, end) pair that occurs at least as often as any other pair, with its exact positive count |
| `Reports.StationStats` | bikeshare_2.py:108-124 | fails with IndexError exactly on no rows; otherwise a most common start station, end station and trip, with the trip's count |
| `Reports.TotalDuration` | bikeshare_2.py:137 | the sum is 0 on no rows and not negative when no duration is |
| `Reports.TotalDurationAppend` | bikeshare_2.py:137 | the total duration adds over concatenation |
| `Reports.TotalDurationSplits` | bikeshare_2.py:137 | the totals of the rows a filter keeps and of the rows it drops add up to the total of all rows |
| `Reports.TotalDurationOfFilterBounded` | bikeshare_2.py:137 | with non-negative durations the filtered total is between 0 and the full total |
| `Reports.FillNa` | bikeshare_2.py:159 | the filled column has the same length and no empty cell |
| `Reports.FillNaInPlace` | bikeshare_2.py:159 | rewrites the column's array in place to the filled column |
| `Reports.FillNaCounts` | bikeshare_2.py:159 | filling moves the empty cells into the 0 bucket and keeps each gender's count |
| `Reports.FillNaIdempotent` | bikeshare_2.py:159 | filling twice is filling once |
| `Reports.PresentCounts` | bikeshare_2.py:160 | `value_counts` of the gender column: present values only, each once, with its count in the whole column; every present value has an entry |
| `Reports.PresentCellsCounted` | bikeshare_2.py:160 | leaving out the empty cells keeps each present value's count |
| `Reports.UnfilledGenderCountsSkipMissing` | bikeshare_2.py:160 | without the fill, the gender counts add up to the rows minus the empty cells |
| `Reports.FilledGenderCountsCoverRows` | bikeshare_2.py:159-160 | after the fill the gender counts add up to the number of rows |
| `Reports.EarliestBirthRow` | bikeshare_2.py:164 | none exactly when no row has a birth year; otherwise the first row whose birth year is the smallest present |
| `Reports.LatestBirthRow` | bikeshare_2.py:166 | none exactly when no row has a birth year; otherwise the first row whose birth year is the largest present |
| `Reports.EarliestBirthLabel` | bikeshare_2.py:164 | `idxmin` reports the label of a row with the smallest present birth year, none when there is none |
| `Reports.LatestBirthLabel` | bikeshare_2.py:166 | `idxmax` reports the label of a row with the largest present birth year, none when there is none |
| `Reports.BirthYears` | bikeshare_2.py:168 | the present birth years, each as often as it occurs in the column |
| `Reports.CommonBirthYear` | bikeshare_2.py:168 | none exactly when no row has a birth year; otherwise a present year that occurs at least as often as any year |
| `Reports.NoBirthYearsPresent` | bikeshare_2.py:168 | no present birth year exactly when no row has one |
| `Reports.FullUserStats` | bikeshare_2.py:148-169 | fails exactly when no row has a birth year: ValueError from `idxmin` on no rows, IndexError from `mode()[0]` otherwise; else user-type counts and filled gender counts that each add up to the rows, the labels of an earliest and a latest birth-year row, and a most common present birth year |
| `Reports.UserStats` | bikeshare_2.py:148-169 | counting, filling the Gender array in place and reading the birth years give exactly FullUserStats |
| `Reports.WashingtonUserStats` | bikeshare_2.py:174-176 | the reduced report holds the user-type counts, which add up to the number of rows |
| `Session.ReducedOnlyForWashington` | bikeshare_2.py:186-189 | of the accepted cities, only washington gets the reduced report |
| `Session.ReportUsers` | bikeshare_2.py:186-189 | `user_stats` for chicago and new york city, `washington_user_stats` otherwise; fails exactly for the full report on rows without birth years; otherwise the user-type counts cover every row |
| `Session.Restart` | bikeshare_2.py:191-193 | a restart answer has three characters |
| `Session.RestartIff` | bikeshare_2.py:191-193 | the program starts again exactly on "yes" in any mix of cases |
| `Session.RunRound` | bikeshare_2.py:178-189 | the load errors pass through; a valid load fails with IndexError exactly on an empty selection or, for chicago and new york city, on rows without birth years; otherwise the time, station and duration reports of the filtered rows and the user report chosen for the city |
| `Session.EarliestLabelIsFileRow` | bikeshare_2.py:164 | after filtering a freshly read file, the label `idxmin` reports names a returned row of the file with the smallest present birth year among the returned rows |
| `Session.LatestLabelIsFileRow` | bikeshare_2.py:166 | the same for `idxmax` and the largest birth year |

## Left out

- Reading the CSV files: `pd.read_csv` is the `files` map parameter, and nothing constrains its rows. The labels of a freshly read file are 0, 1, 2, ... (`Trips.Labelled`); that is a premise of Filters.FilteredKeepsLabels, Session.EarliestLabelIsFileRow and Session.LatestLabelIsFileRow only.
- Parsing `Start Time`: each row carries its month, weekday and hour already derived (lines 62-66 and 100). Creating the `Hour` column is not modelled as a step.
- `input()`: the answers are a parameter. The outer `while True` loop of `main` is not modelled; one round and the restart test are.
- `print`, the greeting, separators, and the `time.time()` timings: output and clocks are not modelled.
- The mean trip duration (line 141): floating-point division is not modelled. Only the sum is.
- Durations are whole numbers (`int`), not floats.
- Aggregates.ValueCounts: states which values appear with which counts, not pandas' descending-count order of the entries.
- Aggregates.Mode: promises a most frequent value, not pandas' choice of the smallest one on ties.
- Reports.MostFrequentTrip: promises a most frequent pair, not the one `nlargest(1)` picks on ties. The model returns the pair and its count, not a Series.
- Reports.EarliestBirthRow: an empty (NaN) birth year is an absent year; pandas' float column is not modelled. The same holds for Reports.LatestBirthRow.
- Text.Lower, Text.Title: only ASCII letters change case; Python's Unicode case mapping is not modelled.
- Missing cells in `User Type`, `Start Station`, `End Station` or `Trip Duration` are not modelled; those columns always hold a value (so the sum of `Trip Duration` at line 137 never skips an empty cell).
- Reports.TimeStats, Reports.StationStats, Reports.FullUserStats and Session.RunRound: the failure of `mode()[0]` on an empty result is IndexError, as in the pandas releases before 1.0 that `.dt.weekday_name` (line 66) needs: there `Series[0]` on an empty index falls back to a positional lookup, which is out of bounds. Later pandas raise KeyError instead; only the release-0.x class is modelled.
- Reports.EarliestBirthLabel: for rows that exist but have no birth year, `idxmin` gives NaN; the model gives None. The same holds for Reports.LatestBirthLabel. A full report is never built from them then, since line 168 raises first.
- Washington's file has no `Gender` or `Birth Year` columns, which would make `user_stats` raise. The model does not model missing columns: such rows carry no gender and no birth year, and `main` never sends Washington there.
- Filters.GetFilters: the answers are finite, so a user who never types a valid answer ends it with no selection instead of a prompt that repeats forever.

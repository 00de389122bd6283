# Adoption labeller model

This project is a Dafny model of `check_for_user_activity_over_time_period`, the user-adoption labeller of the "relax" challenge. The function takes a table of timestamped user activity. It:

1. cuts each timestamp down to its calendar day;
2. groups the rows into one row per (day, user), ordered by day;
3. for each distinct user, in order of first appearance, scans that user's ascending active days three consecutive days at a time.

A user is labelled 1 ("adopted") as soon as the first and third day of some such triple are at most `time_period` days apart. The boundary is inclusive. A user is labelled 0 otherwise, which includes every user with fewer than three active days.

The model has three modules:

- `Bucketing` (`bucketing.dfy`) covers the declarative preprocessing, written as pure functions:
  - `DayOf` truncates a timestamp to its day;
  - `UniqueUsers` gives the distinct users in order of first appearance;
  - `InsertVisit` and `DailyVisits` build the grouped, day-ordered table;
  - `VisitDays` is the per-user filter;
  - `ActiveDays` composes these steps.
- `Window` (`window.dfy`) holds the rule as a specification. `WindowFits` checks one triple and `Adopted` says that some triple fits. Lemmas about the rule are proved here.
- `Labeller` (`labeller.dfy`) holds the two loops of the source as methods. `LabelOf` turns `Adopted` into the 0/1 class value, and every label in the method contracts is stated through it. `ScanUser` is the inner `for i` loop with its `break`/`continue` branches. A ghost out-parameter traces how many windows it examined. `LabelUsers` is the outer loop over users, which builds the result table row by row. Its period defaults to 7 days, as in the source. Both are proved against `Window.Adopted`.

Timestamps are integer seconds since the epoch, time-zone naive. A calendar day is `time / 86400`, which is floor division. Users are values of any type that has equality.

## Model

| member | source | states |
|---|---|---|
| `Bucketing.DayOf` | relax_challenge/functions/transformations.py:36-37 | the day of a timestamp is the unique `d` with `d*86400 <= t < (d+1)*86400`, i.e. the time of day is discarded |
| `Bucketing.FirstIndex` | relax_challenge/functions/transformations.py:31 | the position of a user's first row: that row belongs to the user and no earlier row does |
| `Bucketing.UniqueUsers` | relax_challenge/functions/transformations.py:31 | the user list holds exactly the users of the table, each once, ordered by first appearance |
| `Bucketing.InsertVisit` | relax_challenge/functions/transformations.py:39-40 | adding a (day, user) pair to the grouped table keeps it ordered by day and free of repeated pairs, and adds exactly that pair |
| `Bucketing.DailyVisits` | relax_challenge/functions/transformations.py:33-43 | the grouped table has one row for each distinct (day, user) pair of the input and no other rows, ordered by day |
| `Bucketing.VisitDays` | relax_challenge/functions/transformations.py:49 | filtering the grouped table for one user gives exactly that user's days, and strictly ascending days when the table is day-ordered without repeated pairs |
| `Bucketing.ActiveDays` | relax_challenge/functions/transformations.py:34-49 | a user's scanned days are strictly increasing, hold exactly the days on which the user has a row, and are non-empty exactly for users present in the table |
| `Bucketing.ActiveDaysOwnRowsOnly` | relax_challenge/functions/transformations.py:34-49 | a user's active days, and so the label, depend only on that user's rows: reordering the table or changing other users' rows changes nothing |
| `Window.AdoptedIffThreeDaysWithin` | relax_challenge/functions/transformations.py:10-12 | for ascending days, some consecutive triple fits the period exactly when some three distinct active days `a < b < c` have `c - a <= period` |
| `Window.FewerThanThreeDaysNotAdopted` | relax_challenge/functions/transformations.py:74-77 | a user with fewer than three active days is never adopted, whatever the spacing |
| `Window.ShortPeriodAdoptsNobody` | relax_challenge/functions/transformations.py:56-67 | with a period below two days (including zero and negative periods, which are not rejected) no user is adopted |
| `Window.MoreActiveDaysKeepAdoption` | relax_challenge/functions/transformations.py:10-12 | adding active days never turns an adopted user into a non-adopted one |
| `Window.LongerPeriodKeepsAdoption` | relax_challenge/functions/transformations.py:56-67 | lengthening the period never turns an adopted user into a non-adopted one |
| `Window.WindowBoundaryExamples` | relax_challenge/functions/transformations.py:56-67 | the comparison is inclusive: days 0, 3, 7 qualify for a 7-day period; days 0, 5, 10 and days 1, 2, 10 do not; days 1, 2, 6, 10 are adopted and their first window (index 0) already fits |
| `Labeller.ScanUser` | relax_challenge/functions/transformations.py:50-77 | a user with no active day gets no row and any other user gets exactly one row, labelled 1 exactly when some consecutive triple fits; the scan examines no window when there are fewer than three days and at most `n-2` windows otherwise; every window before the last examined one failed; when the user is adopted, the last examined window is the first one that fits; when the user is not adopted, the scan decides only at the last window, after examining all `n-2` |
| `Labeller.EarlyStopExample` | relax_challenge/functions/transformations.py:65-69 | for days 1, 2, 6, 10 and a 7-day period the scan stops after one window and labels the user 1 |
| `Labeller.RowsFollowUsers` | relax_challenge/functions/transformations.py:31-79 | a table with one rule-labelled row per entry of the first-appearance user list covers every input user exactly once, has no other users, and is in first-appearance order |
| `Labeller.LabelUsers` | relax_challenge/functions/transformations.py:31-79 | the result has exactly one row per user of the input and no other users; rows come in order of first appearance; each row's label is the window rule applied to that user's active days |

## Left out

- Plotting and the float aggregations in the graphing modules are not part of this model. They are chart rendering and pandas/numpy float arithmetic.
- The quantity columns that `groupby(...).sum()` adds up are not modelled. The labelling rule never reads them.
- Timestamps are integer seconds, time-zone naive. Time zones, sub-second resolution and pandas `DatetimeIndex` behaviour are not modelled.
- `Bucketing.DailyVisits`: rows that share a day keep insertion order. The source also orders them by user id. Users here have equality only, and the per-user filter never sees that order.
- The per-user filter in the source names the column `user_id` directly instead of using `user_col`. The model assumes the user column is `user_id`.
- The code validates nothing. An empty table gives an empty result. A period below two labels everyone 0 (`Window.ShortPeriodAdoptsNobody`). Missing columns cannot be expressed over typed rows.
- `Labeller.LabelUsers`: missing user ids and missing timestamps are not modelled. In the source, `unique()` lists a NaN user id, but `groupby` drops NaN keys. Such a user, or a user whose timestamps are all NaT, gets no daily rows and so no result row. In the model every user and timestamp is a proper value, so every user of the input gets exactly one row.
- `Labeller.ScanUser`: the overflow of `timedelta(days=time_period)` is not modelled. The source raises an error when the period's magnitude exceeds 999999999 days and some user has three or more active days. The model's periods are unbounded integers and never fail.
- `time_period` is an integer number of days. A fractional `timedelta` period is not modelled.
- The repeated-copy cost of `DataFrame.append` is not modelled. The result is a growing sequence.

# Decred node statistics, modelled in Dafny

This project models the statistics core of the Decred node-stats tool.
The tool takes the daily peer counts that dcr.farm reports per user agent.
It reduces them to a monthly "average version distribution" line.

The model covers these steps:

- **Per-agent means.** `calc_node_stats` turns each series of daily counts into a mean. It also gives each mean its share of the sum of all means (`SeriesStats`).
- **Groups.** `inverse_multidict` turns the table of tracked groups into a lookup from user agent to group (`Multidict`). `calc_node_group_stats` then adds up the means per group, sorts the groups by share (largest first) and computes the untracked rest (`Groups`).
- **Concise rounding.** `concise_round` drops decimal places while the result stays within 10% of the original (`Rounding`). `fmt_percent` applies it to percentages.
- **The report line.** `print_node_stats` lists the dcrd groups, then the dcrwallet groups, then "others" (`Report`). The line is modelled as a sequence of entries, plus a rendering parameterised by the number formatter.
- **Months.** `inc_month`, `dec_month`, `month_interval` and `month_range`, plus the month `main` assumes by default (`Months`).
- **The older script.** `nodes/get_node_average.py` picks out the agents whose tag mentions one of four versions, gives them percentages and prints them (`Legacy`).

Shared pieces live in their own modules:

- `Common`: the error kinds (Python's exceptions), `Result` and sums.
- `Strings`: Python's `in` on strings, plus `split` and `join`.
- `Sorting`: a stable descending insertion sort, which is what `sorted(..., reverse=True)` does.

## How it is modelled

Numbers are exact rationals (`real`). The counts are `nat`.

Every place where Python raises an exception returns `Err(kind)` instead. The kinds are:

- `ZeroDivision` for `ZeroDivisionError`.
- `EmptyMean` for `statistics.StatisticsError`.
- `DuplicateValue(e)` for the `ValueError` of `inverse_multidict`.
- `YearOutOfRange` and `DayOutOfRange` for the `ValueError`s of `date.replace`.
- `IndexOutOfRange` for `IndexError`.

Dicts become sequences of entries, in insertion order. A Python `for` loop becomes a function over a prefix of the sequence. The group table that the source reads from `user-agents-tracked.json` is a parameter (`Multidict`).

Behaviour of the code worth knowing, which the model follows:

- **`concise_round` is not idempotent** (`Rounding.ConciseRoundNotIdempotent`): 4.449 gives 4.4, and 4.4 gives 4.
- **`concise_round(0)` raises `ZeroDivisionError`**, because the code divides by `f` (nodes/nodestats.py:157).
- **An empty series list is not an error.** It gives an empty table with sum 0, because nothing is divided.
- **Non-dcrd groups are not shown.** A tracked group whose name contains neither "dcrd" nor "dcrwallet" counts towards the tracked share, but it is not printed (`Report.ListedTimes`).

## Model

| member | source | states |
|---|---|---|
| Multidict.InverseMultidict | nodes/nodestats.py:27-38 | succeeds exactly when no member appears twice across the lists; on success the lookup's keys are exactly the members and each maps to the name of its list; on failure it names a member at its first repeated occurrence |
| SeriesStats.Mean | nodes/nodestats.py:81 | `statistics.mean` fails exactly on an empty series; otherwise the mean times the length is the total, and it is zero exactly when every count is zero |
| SeriesStats.CalcNodeStats | nodes/nodestats.py:70-92 | fails with the mean error on an empty series, else with a division by zero exactly when there are series but no peers; otherwise one row per series in order with its mean, the sum of means, and each ratio equal to mean over sum |
| SeriesStats.ZeroTotalIffNoPeers | nodes/nodestats.py:82 | the sum of the daily means is zero exactly when no series ever counted a peer |
| SeriesStats.RatiosSumToOne | nodes/nodestats.py:87-90 | the ratios of a non-empty table add up to one |
| SeriesStats.RatiosAreShares | nodes/nodestats.py:89 | every ratio lies between zero and one |
| Groups.CalcNodeGroupStats | nodes/nodestats.py:102-134 | fails with the duplicate error when the group table repeats a user agent, and with a division by zero exactly when some row is tracked and the sum of means is zero; otherwise the groups are sorted by share, each tracked name appears once with its rows in input order, its summed mean and that sum over the total, and the untracked ratio is one minus the sum of the groups' ratios |
| Groups.NodeStats | nodes/nodestats.py:70-134 | the two steps in sequence: the error of the first step is passed on; the pipeline fails exactly when the first step fails or a user agent appears in two groups, so the group step's division by zero cannot happen here; on success of the first step the result is the group step applied to its table and sum |
| Groups.GroupByNameNames | nodes/nodestats.py:107-114 | the grouping dict has one key per tracked group name, in order of first appearance |
| Groups.GroupByNameMembers | nodes/nodestats.py:107-114 | each group's list holds exactly the rows whose agent the lookup sends to that group, in input order |
| Groups.GroupByNameTotal | nodes/nodestats.py:107-124 | the grouped rows' means add up to the means of the tracked rows |
| Groups.MakeGroupsRatioSum | nodes/nodestats.py:121-127 | the groups' ratios add up to the tracked means over the total |
| Groups.SortedGroups | nodes/nodestats.py:129-130 | sorting by ratio keeps the group descriptions, puts them in descending order of share and keeps their ratio sum |
| Groups.TrackedSumBounds | nodes/nodestats.py:107-114 | the tracked rows' means lie between zero and the sum of all means |
| Groups.UntrackedIsShare | nodes/nodestats.py:117-133 | when the total is the sum of non-negative means, the tracked ratio is the tracked means over the total and the untracked ratio lies between zero and one |
| Groups.NodeStatsUntrackedIsShare | nodes/nodestats.py:70-134 | through the whole pipeline the untracked ratio is a share between zero and one |
| Rounding.RoundHalfEvenInt | nodes/nodestats.py:145-146 | `round` to an integer lands within one half of its argument and, on a tie, on the even neighbour |
| Rounding.RoundHalfEvenIntUnique | nodes/nodestats.py:145-146 | any integer that is nearest, or on a tie nearest and even, is the rounded value, so the rounding is determined by that property |
| Rounding.RoundHalfEvenDecimal | nodes/nodestats.py:155 | `round(f, digits)` has at most `digits` decimal places, lies within half a unit of the last place from `f`, and on a tie ends in an even digit |
| Rounding.RoundingLoopSpec | nodes/nodestats.py:151-161 | the loop keeps a value within 10% of `f`; when it stops at a rejected candidate it returns the last accepted one, and when it runs out of digits every candidate down to zero places was accepted |
| Rounding.ConciseRound | nodes/nodestats.py:136-170 | fails with a division by zero exactly when `f` is zero; otherwise the result is within 10% of `f` |
| Rounding.ConciseRoundIsCoarsestAccepted | nodes/nodestats.py:136-170 | the result is `f` itself when two places are already rejected, and otherwise the rounding to the fewest places such that every rounding from there up to two places is accepted |
| Rounding.ConciseRoundKeepsSign | nodes/nodestats.py:154-161 | the result of a non-zero number is non-zero and has its sign |
| Rounding.ConciseRoundNotIdempotent | nodes/nodestats.py:136-170 | rounding 4.449 gives 4.4, and rounding 4.4 again gives 4 |
| Rounding.ConciseRoundTableA | nodes/nodestats_test.py:5-9 | the first five rows of the test table, from 48.01 to 7.72 |
| Rounding.ConciseRoundTableB | nodes/nodestats_test.py:10-14 | the rows from 5.98 to 2.42 |
| Rounding.ConciseRoundTableC | nodes/nodestats_test.py:15-19 | the rows from 2.17 to 1.45 |
| Rounding.ConciseRoundTableD | nodes/nodestats_test.py:20-24 | the rows from 1.42 to 0.36 |
| Rounding.ConciseRoundOrZero | nodes/nodestats.py:136-170 | corrected rounding: zero exactly for zero, same sign and within 10% otherwise, and equal to the source's result wherever that one exists |
| Report.FmtPercentAsWritten | nodes/nodestats.py:172-173 | `fmt_percent` as written succeeds exactly on a non-zero share, and then agrees with the corrected formatting |
| Report.CollectIsFamilies | nodes/nodestats.py:188-195 | the single loop builds exactly the entries of the dcrd groups, and exactly those of the dcrwallet groups, each in list order |
| Report.FamilyMembers | nodes/nodestats.py:191-195 | a group is listed under a marker exactly when it is in the list and its name contains the marker |
| Report.FamilySorted | nodes/nodestats.py:188-195 | each family keeps the descending order of shares |
| Report.ListedTimes | nodes/nodestats.py:191-195 | a group named with both markers is listed in both families, and one named with neither is not listed at all |
| Report.ReportOf | nodes/nodestats.py:182-198 | corrected report: the month's name, the dcrd entries followed by the dcrwallet entries, and an "others" figure that is `fmt_percent` of the untracked share: zero exactly when that share is, otherwise within 10% of it |
| Report.CollectAsWrittenAgrees | nodes/nodestats.py:188-195 | the loop as written fails exactly when a listed group has a zero share, with a division by zero, and otherwise builds the same entries as the corrected one |
| Report.PrintNodeStats | nodes/nodestats.py:182-199 | as written: succeeds exactly when the untracked share and every listed group's share are non-zero; it then gives the corrected report |
| Report.AllTrackedFails | nodes/nodestats.py:198 | a single dcrd group holding all peers makes the source fail, while the corrected report lists it at 100% with 0% others |
| Report.RenderShowsEntries | nodes/nodestats.py:183-198 | the rendered line starts with the header and the month's name, contains the text of every entry, and contains the others figure followed by "% others." |
| Months.Replace | nodes/nodestats.py:236 | `date.replace` checks the year first and then the day against the new month; it succeeds exactly when both are in range |
| Months.IncMonthSpec | nodes/nodestats.py:234-238 | `inc_month` succeeds exactly when the next month exists and has the day; it then gives the same day one month later |
| Months.DecMonthSpec | nodes/nodestats.py:240-244 | `dec_month` succeeds exactly when the previous month exists and has the day; it then gives the same day one month earlier |
| Months.DecIncMonth | nodes/nodestats.py:234-244 | stepping back after stepping forward returns the original date |
| Months.IncDecMonth | nodes/nodestats.py:234-244 | stepping forward after stepping back returns the original date |
| Months.MonthInterval | nodes/nodestats.py:246-252 | fails only in December 9999; otherwise gives the first days of the date's month and of the next month, with the date in between |
| Months.MonthRangeSpec | nodes/nodestats.py:254-259 | the range is made of consecutive first days of months from the month of `start`, all before `end`, and stops at the first one that is not; it fails exactly when it would have to step past December 9999 |
| Months.RangeCount | nodes/nodestats.py:254-259 | from the first day of a month strictly before `end`, the range succeeds when `end` is before year 9999, starts at that day, and has one entry per month up to the month of `end`, which counts only if `end` is past its 1st |
| Months.SaveAllMonths | nodes/nodestats.py:23 | the range from December 2017 to today starts in December 2017 and has one month for each month up to today's, with today's month included unless today is its first day |
| Months.AssumedMonthFailsOnMarch31 | nodes/nodestats.py:333-335 | stepping back from 31 March gives a day error, because there is no 31 February |
| Months.PreviousMonth | nodes/nodestats.py:333-335 | corrected default month: succeeds exactly after January of year 1, and gives the first day of the previous month |
| Legacy.UaMeans | nodes/get_node_average.py:48-51 | fails on a series without counts; otherwise one row per series, in order, with its mean |
| Legacy.Copies | nodes/get_node_average.py:59-61 | the inner loop appends the row once per version its tag mentions |
| Legacy.CalcNodeVersionStats | nodes/get_node_average.py:43-72 | fails on a series without counts, or with a division by zero exactly when something is selected and there are no peers; otherwise the selected rows sorted by descending mean, as a permutation of the selection, each with its mean as a percentage of the sum of all means |
| Legacy.SharesOf | nodes/get_node_average.py:65-72 | the sort and the last loop: a division by zero exactly when something is selected and the total is zero, otherwise sorted, a permutation of the selection, with the percentage formula |
| Legacy.InterestedNonEmptyIff | nodes/get_node_average.py:57-61 | something is selected exactly when some tag mentions one of the versions |
| Legacy.InterestedCount | nodes/get_node_average.py:57-61 | each row is selected as many times as it occurs times the number of versions its tag mentions |
| Legacy.InterestedSumBound | nodes/get_node_average.py:57-62 | when no tag mentions two versions, the selected means lie between zero and the sum of all means |
| Legacy.PercentagesAtMost100 | nodes/get_node_average.py:43-72 | when no tag mentions two versions, the percentages add up to a value between 0 and 100 |
| Legacy.TagField | nodes/get_node_average.py:85-86 | the third `/`-separated field exists exactly when the tag has at least two slashes |
| Legacy.EntriesForSpec | nodes/get_node_average.py:82-92 | one printing loop fails exactly when a tag with the marker has fewer than two slashes; otherwise it gives one entry per row whose tag mentions the marker, in order, each the row's percentage rounded to two places and labelled with the tag's third `/`-separated field |
| Legacy.MentioningMembers | nodes/get_node_average.py:82-90 | a row is among those a printing loop visits exactly when it is in the list and its tag contains the marker |
| Legacy.PrintLegacy | nodes/get_node_average.py:74-99 | the printout fails exactly when a dcrd or dcrwallet tag lacks a third field; otherwise it names the month, lists the dcrd rows and then the dcrwallet rows, each as its rounded percentage and the tag's third field, and reports 100 minus the sum of all percentages, rounded to two places |
| Legacy.OthersNonNegative | nodes/get_node_average.py:83-95 | when no tag mentions two versions, "Others" is never negative |
| Strings.ContainsIffOccurs | nodes/nodestats.py:191 | `marker in name` holds exactly when the marker occurs at some position of the name |
| Strings.SplitLength | nodes/get_node_average.py:85 | `split` gives one more field than there are separators |
| Strings.JoinSplit | nodes/get_node_average.py:85 | joining the fields of a split with the separator gives back the string |
| Sorting.SortDescCorrect | nodes/nodestats.py:130 | the sort puts the items in descending order of the key, and for every key value keeps exactly the items with that key in their input order |

## Left out

- **Floating point.** Python computes in binary floating point. The model uses exact rationals, so `round` and the 10% comparison see exact decimal inputs such as 0.1 and 2.42. Near a tie, Python's result can differ.
- **Number formatting.** `str()` of floats and ints is not modelled: `Report.Render` takes the formatter as a parameter. `concise_round` returns an `int` or a `float`; the model returns a `real` either way. Its "fully rounded float not equal to int" exception cannot happen on exact numbers, so that branch is unreachable in the model.
- **Dates.** `strftime("%B")` is taken to give English month names. The time of day and the time zone of the `datetime`s are carried along unchanged, so dates are year, month and day only.
- **I/O and the program around it.** The HTTP request, JSON parsing, file loading and saving, `datetime_to_unix_millis`, argument parsing, `print_node_counts`, `update_user_agents`, `save_range` and `main`'s control flow are not modelled. The JSON file of tracked groups is the `trackedGroups` parameter, and the current date is the `now` parameter.
- **Legacy aliasing.** `Legacy.CalcNodeVersionStats` treats a tag that mentions two versions as two equal rows. In the source both rows are one shared list, so the percentage is appended to it twice. Only index 2 is ever read, so the printout is the same.
- **Legacy.PercentagesAtMost100 and Legacy.OthersNonNegative** assume that no tag mentions two versions. Without that, a row is counted twice and the percentages can exceed 100.
- **Months.MonthRangeSpec** does not model the months yielded before a failure. `month_range` is a generator, so a caller would see them before the exception.

## Findings

| source | as written | input that shows it | evidently intended | confidence | as-written member | corrected member |
|---|---|---|---|---|---|---|
| nodes/nodestats.py:157 | `concise_round` divides by `f`, so `fmt_percent` of a zero share raises `ZeroDivisionError`, and `print_node_stats` fails | one dcrd group holding all peers: untracked ratio 0 | print "0% others." (and 0% for a listed group with no peers) | not executed | Report.PrintNodeStats (counterexample Report.AllTrackedFails) | Report.ReportOf, using Rounding.ConciseRoundOrZero |
| nodes/nodestats.py:240-244 with 335 | the default month is `dec_month(now)`, which keeps the day of the month | run on 31 March: there is no 31 February, so `replace` raises `ValueError` | report on the previous month whatever today's day is | not executed | Months.AssumedMonth (counterexample Months.AssumedMonthFailsOnMarch31) | Months.PreviousMonth |

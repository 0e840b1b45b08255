/** The month helpers of nodes/nodestats.py: `inc_month`, `dec_month`,
    `month_interval` and `month_range`, over proleptic Gregorian dates with
    Python's year range 1..9999. Time of day and time zone are carried along
    unchanged by the source and are left out. */
module Months {
  import opened Common

  datatype Date = Date(year: int, month: int, day: int)

  const MinYear: int := 1
  const MaxYear: int := 9999

  predicate IsLeap(year: int)
  {
    year % 4 == 0 && (year % 100 != 0 || year % 400 == 0)
  }

  function DaysInMonth(year: int, month: int): int
    requires 1 <= month <= 12
  {
    if month == 2 then (if IsLeap(year) then 29 else 28)
    else if month == 4 || month == 6 || month == 9 || month == 11 then 30
    else 31
  }

  /** `strftime("%B")` in an English locale. */
  function MonthName(month: int): string
    requires 1 <= month <= 12
  {
    ["January", "February", "March", "April", "May", "June", "July",
     "August", "September", "October", "November", "December"][month - 1]
  }

  /** A date Python's `date` type can hold. */
  predicate Valid(d: Date)
  {
    && MinYear <= d.year <= MaxYear
    && 1 <= d.month <= 12
    && 1 <= d.day <= DaysInMonth(d.year, d.month)
  }

  /** Months since January of year 0: consecutive months have consecutive
      indices. */
  function MonthIndex(d: Date): int
  {
    d.year * 12 + d.month - 1
  }

  /** The first day of the month with index `k`. */
  function FirstOfMonth(k: int): (d: Date)
    ensures MonthIndex(d) == k && d.day == 1 && 1 <= d.month <= 12
  {
    Date(k / 12, k % 12 + 1, 1)
  }

  /** Chronological order of dates. */
  predicate Before(a: Date, b: Date)
  {
    a.year < b.year || (a.year == b.year && (a.month < b.month || (a.month == b.month && a.day < b.day)))
  }

  /** `d.replace(year = year, month = month)`: the year is checked first,
      then the day against the new month. */
  function Replace(d: Date, year: int, month: int): (r: Result<Date>)
    requires 1 <= month <= 12
    ensures r.Ok? <==> MinYear <= year <= MaxYear && 1 <= d.day <= DaysInMonth(year, month)
    ensures r.Ok? ==> r.value == Date(year, month, d.day)
    ensures r.Err? ==> r.error == (if MinYear <= year <= MaxYear then DayOutOfRange else YearOutOfRange)
  {
    if !(MinYear <= year <= MaxYear) then Err(YearOutOfRange)
    else if !(1 <= d.day <= DaysInMonth(year, month)) then Err(DayOutOfRange)
    else Ok(Date(year, month, d.day))
  }

  function IncMonth(d: Date): (r: Result<Date>)
    requires Valid(d)
  {
    if d.month < 12 then Replace(d, d.year, d.month + 1)
    else Replace(d, d.year + 1, 1)
  }

  function DecMonth(d: Date): (r: Result<Date>)
    requires Valid(d)
  {
    if d.month > 1 then Replace(d, d.year, d.month - 1)
    else Replace(d, d.year - 1, 12)
  }

  /** `inc_month` moves to the same day of the next month; it fails past
      December 9999, and when that day does not exist in the next month. */
  lemma IncMonthSpec(d: Date)
    requires Valid(d)
    ensures var next := FirstOfMonth(MonthIndex(d) + 1);
            var r := IncMonth(d);
            && (r.Ok? <==> next.year <= MaxYear && d.day <= DaysInMonth(next.year, next.month))
            && (r.Ok? ==> Valid(r.value) && MonthIndex(r.value) == MonthIndex(d) + 1 && r.value.day == d.day)
            && (r.Err? ==> r.error == (if next.year <= MaxYear then DayOutOfRange else YearOutOfRange))
  {
    var k := MonthIndex(d) + 1;
    if d.month < 12 {
      assert k / 12 == d.year && k % 12 == d.month;
    } else {
      assert k / 12 == d.year + 1 && k % 12 == 0;
    }
  }

  /** `dec_month` moves to the same day of the previous month; it fails
      before January of year 1, and when that day does not exist in the
      previous month. */
  lemma DecMonthSpec(d: Date)
    requires Valid(d)
    ensures var prev := FirstOfMonth(MonthIndex(d) - 1);
            var r := DecMonth(d);
            && (r.Ok? <==> MinYear <= prev.year && d.day <= DaysInMonth(prev.year, prev.month))
            && (r.Ok? ==> Valid(r.value) && MonthIndex(r.value) == MonthIndex(d) - 1 && r.value.day == d.day)
            && (r.Err? ==> r.error == (if MinYear <= prev.year then DayOutOfRange else YearOutOfRange))
  {
    var k := MonthIndex(d) - 1;
    if d.month > 1 {
      assert k / 12 == d.year && k % 12 == d.month - 2;
    } else {
      assert k / 12 == d.year - 1 && k % 12 == 11;
    }
  }

  /** The two are inverse wherever the first succeeds. */
  lemma DecIncMonth(d: Date)
    requires Valid(d) && IncMonth(d).Ok?
    ensures DecMonth(IncMonth(d).value) == Ok(d)
  {
    if d.month < 12 {
      assert IncMonth(d).value == Date(d.year, d.month + 1, d.day);
    } else {
      assert IncMonth(d).value == Date(d.year + 1, 1, d.day);
    }
  }

  lemma IncDecMonth(d: Date)
    requires Valid(d) && DecMonth(d).Ok?
    ensures IncMonth(DecMonth(d).value) == Ok(d)
  {
    if d.month > 1 {
      assert DecMonth(d).value == Date(d.year, d.month - 1, d.day);
    } else {
      assert DecMonth(d).value == Date(d.year - 1, 12, d.day);
    }
  }

  /** `month_interval`: the first day of the month of `d` and the first day
      of the next month, which `d` lies between. */
  function MonthInterval(d: Date): (r: Result<(Date, Date)>)
    requires Valid(d)
    ensures r.Ok? <==> d.year < MaxYear || d.month < 12
    ensures r.Err? ==> r.error == YearOutOfRange
    ensures r.Ok? ==> var (start, end) := r.value;
              && Valid(start) && Valid(end)
              && start.day == 1 && MonthIndex(start) == MonthIndex(d)
              && end.day == 1 && MonthIndex(end) == MonthIndex(d) + 1
              && !Before(d, start) && Before(d, end)
  {
    var start := Date(d.year, d.month, 1);
    IncMonthSpec(start);
    var end :- IncMonth(start);
    Ok((start, end))
  }

  /** The loop of `month_range` from `month` on. */
  function MonthsFrom(month: Date, end: Date): (r: Result<seq<Date>>)
    requires Valid(month) && month.day == 1 && Valid(end)
    decreases MonthIndex(end) + 1 - MonthIndex(month)
  {
    if !Before(month, end) then Ok([])
    else
      IncMonthSpec(month);
      var next :- IncMonth(month);
      var rest :- MonthsFrom(next, end);
      Ok([month] + rest)
  }

  /** `month_range(start, end)`: the first days of the months from the
      month of `start` on, as long as they are before `end`. */
  function MonthRange(start: Date, end: Date): (r: Result<seq<Date>>)
    requires Valid(start) && Valid(end)
  {
    MonthsFrom(Date(start.year, start.month, 1), end)
  }

  /** The range holds consecutive first days of months, all before `end`,
      up to the first one that is not; it fails when it would have to step
      past December 9999. */
  lemma MonthsFromSpec(month: Date, end: Date)
    requires Valid(month) && month.day == 1 && Valid(end)
    ensures var r := MonthsFrom(month, end);
            && (r.Ok? <==> !Before(Date(MaxYear, 12, 1), end))
            && (r.Err? ==> r.error == YearOutOfRange)
            && (r.Ok? ==> && (forall i :: 0 <= i < |r.value| ==>
                                 r.value[i] == FirstOfMonth(MonthIndex(month) + i)
                                 && Valid(r.value[i]) && Before(r.value[i], end))
                          && !Before(FirstOfMonth(MonthIndex(month) + |r.value|), end))
  {
    MonthsFromOk(month, end);
    if MonthsFrom(month, end).Ok? {
      MonthsFromContents(month, end);
    }
  }

  /** When the loop fails: stepping past December 9999. */
  lemma {:induction false} MonthsFromOk(month: Date, end: Date)
    requires Valid(month) && month.day == 1 && Valid(end)
    ensures var r := MonthsFrom(month, end);
            && (r.Ok? <==> !Before(Date(MaxYear, 12, 1), end))
            && (r.Err? ==> r.error == YearOutOfRange)
    decreases MonthIndex(end) + 1 - MonthIndex(month)
  {
    IncMonthSpec(month);
    if Before(month, end) && IncMonth(month).Ok? {
      MonthsFromOk(IncMonth(month).value, end);
    }
  }

  /** What a successful loop yields. */
  lemma MonthsFromContents(month: Date, end: Date)
    requires Valid(month) && month.day == 1 && Valid(end)
    requires MonthsFrom(month, end).Ok?
    ensures var ms := MonthsFrom(month, end).value;
            && (forall i :: 0 <= i < |ms| ==>
                  ms[i] == FirstOfMonth(MonthIndex(month) + i) && Valid(ms[i]) && Before(ms[i], end))
            && !Before(FirstOfMonth(MonthIndex(month) + |ms|), end)
  {
    MonthsYielded(month, end, MonthsFrom(month, end).value);
  }

  lemma {:induction false} MonthsYielded(month: Date, end: Date, ms: seq<Date>)
    requires Valid(month) && month.day == 1 && Valid(end)
    requires MonthsFrom(month, end) == Ok(ms)
    ensures forall i :: 0 <= i < |ms| ==>
              ms[i] == FirstOfMonth(MonthIndex(month) + i) && Valid(ms[i]) && Before(ms[i], end)
    ensures !Before(FirstOfMonth(MonthIndex(month) + |ms|), end)
    decreases MonthIndex(end) + 1 - MonthIndex(month)
  {
    FirstOfOwnMonth(month);
    if Before(month, end) {
      IncMonthSpec(month);
      var next := IncMonth(month).value;
      FirstOfOwnMonth(next);
      var rest := MonthsFrom(next, end).value;
      MonthsYielded(next, end, rest);
      assert ms == [month] + rest;
      PrependYield(month, next, end, rest);
    }
  }

  /** The step of the induction: one more month in front. */
  lemma PrependYield(month: Date, next: Date, end: Date, rest: seq<Date>)
    requires Valid(month) && Before(month, end) && month == FirstOfMonth(MonthIndex(month))
    requires MonthIndex(next) == MonthIndex(month) + 1
    requires forall i :: 0 <= i < |rest| ==>
               rest[i] == FirstOfMonth(MonthIndex(next) + i) && Valid(rest[i]) && Before(rest[i], end)
    ensures forall i :: 0 <= i < |[month] + rest| ==>
              ([month] + rest)[i] == FirstOfMonth(MonthIndex(month) + i) && Valid(([month] + rest)[i]) && Before(([month] + rest)[i], end)
  {
    var ms := [month] + rest;
    forall i | 0 <= i < |ms|
      ensures ms[i] == FirstOfMonth(MonthIndex(month) + i) && Valid(ms[i]) && Before(ms[i], end)
    {
      if i > 0 {
        assert ms[i] == rest[i - 1];
        assert MonthIndex(month) + i == MonthIndex(next) + (i - 1);
      }
    }
  }

  /** A first day of a month is the first day of its own month index. */
  lemma FirstOfOwnMonth(d: Date)
    requires 1 <= d.month <= 12 && d.day == 1
    ensures d == FirstOfMonth(MonthIndex(d))
  {
  }

  lemma MonthRangeSpec(start: Date, end: Date)
    requires Valid(start) && Valid(end)
    ensures var r := MonthRange(start, end);
            && (r.Ok? <==> !Before(Date(MaxYear, 12, 1), end))
            && (r.Ok? ==> && (forall i :: 0 <= i < |r.value| ==>
                                 r.value[i] == FirstOfMonth(MonthIndex(start) + i)
                                 && Valid(r.value[i]) && Before(r.value[i], end))
                          && !Before(FirstOfMonth(MonthIndex(start) + |r.value|), end))
  {
    var first := Date(start.year, start.month, 1);
    assert Valid(first) && MonthIndex(first) == MonthIndex(start);
    assert MonthRange(start, end) == MonthsFrom(first, end);
    MonthsFromSpec(first, end);
  }

  /** A first day of a month lies before `d` exactly when its month is
      earlier than that of `d`, or is that month and `d` is past the 1st. */
  lemma BeforeFirstOfMonth(k: int, d: Date)
    requires 1 <= d.month <= 12
    ensures Before(FirstOfMonth(k), d) <==> k < MonthIndex(d) || (k == MonthIndex(d) && d.day > 1)
  {
    var f := FirstOfMonth(k);
    assert k == f.year * 12 + (f.month - 1);
    if f.year < d.year {
      assert k < MonthIndex(d);
    } else if f.year > d.year {
      assert k > MonthIndex(d);
    }
  }

  /** The first month `--save-all` fetches. */
  const DcrfarmStart: Date := Date(2017, 12, 1)

  /** `month_range(DCRFARM_START_DATE, today)` holds one month per month from
      December 2017 up to the month of `today`, that month included unless
      `today` is its first day. */
  lemma SaveAllMonths(today: Date)
    requires Valid(today) && today.year < MaxYear && Before(DcrfarmStart, today)
    ensures var r := MonthRange(DcrfarmStart, today);
            && r.Ok?
            && |r.value| == MonthIndex(today) - MonthIndex(DcrfarmStart) + (if today.day > 1 then 1 else 0)
            && r.value[0] == DcrfarmStart
  {
    assert MonthRange(DcrfarmStart, today) == MonthsFrom(DcrfarmStart, today);
    RangeCount(DcrfarmStart, today);
  }

  /** The loop from a first day of a month before `end` yields one month per
      month up to that of `end`, the month of `end` included unless `end` is
      its first day. */
  lemma RangeCount(start: Date, end: Date)
    requires Valid(start) && start.day == 1 && Valid(end) && end.year < MaxYear && Before(start, end)
    ensures MonthsFrom(start, end).Ok?
    ensures |MonthsFrom(start, end).value| == MonthIndex(end) - MonthIndex(start) + (if end.day > 1 then 1 else 0)
    ensures MonthsFrom(start, end).value[0] == start
  {
    MonthsFromOk(start, end);
    var ms := MonthsFrom(start, end).value;
    assert ms == [start] + MonthsFrom(IncMonth(start).value, end).value;
    YieldBounds(start, end, ms);
  }

  /** The last month yielded lies before `end` and the one after it does
      not, stated on month indices. */
  lemma YieldBounds(start: Date, end: Date, ms: seq<Date>)
    requires Valid(start) && start.day == 1 && Valid(end)
    requires MonthsFrom(start, end) == Ok(ms) && |ms| > 0
    ensures var last, e := MonthIndex(start) + |ms| - 1, end.day > 1;
            && (last < MonthIndex(end) || (last == MonthIndex(end) && e))
            && !(last + 1 < MonthIndex(end) || (last + 1 == MonthIndex(end) && e))
  {
    var k, n := MonthIndex(start), |ms|;
    MonthsYielded(start, end, ms);
    assert ms[n - 1] == FirstOfMonth(k + n - 1) && Before(ms[n - 1], end);
    BetweenFirsts(k + n - 1, end);
  }

  /** The month indices around the end of the range, from the two first
      days that bracket `d`. */
  lemma BetweenFirsts(last: int, d: Date)
    requires 1 <= d.month <= 12
    requires Before(FirstOfMonth(last), d) && !Before(FirstOfMonth(last + 1), d)
    ensures last < MonthIndex(d) || (last == MonthIndex(d) && d.day > 1)
    ensures !(last + 1 < MonthIndex(d) || (last + 1 == MonthIndex(d) && d.day > 1))
  {
    BeforeFirstOfMonth(last, d);
    BeforeFirstOfMonth(last + 1, d);
  }

  // ---------------------------------------------------------------------
  // The month `main` reports on by default.

  /** As written: `dec_month` applied to the current date. */
  function AssumedMonth(now: Date): Result<Date>
    requires Valid(now)
  {
    DecMonth(now)
  }

  /** On the 31st of March there is no 31st of February to step back to. */
  lemma AssumedMonthFailsOnMarch31()
    ensures Valid(Date(2021, 3, 31))
    ensures AssumedMonth(Date(2021, 3, 31)) == Err(DayOutOfRange)
  {
  }

  /** Corrected: step back from the first day of the current month. It
      fails only in January of year 1, and otherwise names the previous
      month. */
  function PreviousMonth(now: Date): (r: Result<Date>)
    requires Valid(now)
    ensures r.Ok? <==> MonthIndex(now) > MinYear * 12
    ensures r.Ok? ==> Valid(r.value) && r.value.day == 1 && MonthIndex(r.value) == MonthIndex(now) - 1
  {
    var first := Date(now.year, now.month, 1);
    DecMonthSpec(first);
    DecMonth(first)
  }
}

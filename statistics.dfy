/**
  The read-only summaries of `/api/users`: `/statistics` (a period window over both
  metric tables, the rounded mean of the calories, the current weight) and
  `/monthly-data` (a date-keyed map of each table for one month).

  Dates are day numbers; `today` and the month's first and last day are parameters.
*/
module Statistics {
  import opened Wrappers
  import opened Sql
  import opened Http
  import opened Metrics
  import Accounts

  // ---------------------------------------------------------------- the period

  /** `req.query.period || 'week'`: a missing or empty parameter means the week. */
  function PeriodName(period: Option<string>): (name: string)
    ensures period.None? || period.value == "" ==> name == "week"
    ensures period.Some? && period.value != "" ==> name == period.value
  {
    if period.None? || period.value == "" then "week" else period.value
  }

  /** The window length of each period of the `switch`; anything unrecognised falls back to the week. */
  function WindowDays(name: string): (days: nat)
    ensures name == "week" ==> days == 7
    ensures name == "month" ==> days == 30
    ensures name == "3months" ==> days == 90
    ensures name == "year" ==> days == 365
    ensures name !in {"month", "3months", "year"} ==> days == 7
  {
    match name
    case "month" => 30
    case "3months" => 90
    case "year" => 365
    case _ => 7
  }

  /** `new Date(0)`: the 'all' period starts at 1970-01-01, day 0. */
  const EPOCH: Day := 0

  /** The first day of the window, the `date >= $2` bound of both queries. */
  function Cutoff(period: Option<string>, today: Day): (from: Day)
    ensures PeriodName(period) == "all" ==> from == EPOCH
    ensures PeriodName(period) != "all" ==> from == today - WindowDays(PeriodName(period))
    ensures from <= today || PeriodName(period) == "all"
  {
    if PeriodName(period) == "all" then EPOCH else today - WindowDays(PeriodName(period))
  }

  /** Any period name the switch does not know gives the same window as no period at all. */
  lemma UnknownPeriodIsWeek(p: string, today: Day)
    requires p !in {"week", "month", "3months", "year", "all"}
    ensures Cutoff(Some(p), today) == Cutoff(None, today) == today - 7
  {
  }

  /**
    The windows nest: each named period covers every row the shorter ones cover, and
    'all' covers the year once the year starts after 1970-01-01.
  */
  lemma WindowsNest(rows: seq<Row>, user: Id, today: Day, x: Row)
    requires x in Window(rows, user, Cutoff(Some("week"), today))
    ensures x in Window(rows, user, Cutoff(Some("month"), today))
    ensures x in Window(rows, user, Cutoff(Some("3months"), today))
    ensures x in Window(rows, user, Cutoff(Some("year"), today))
    ensures today - 365 >= EPOCH ==> x in Window(rows, user, Cutoff(Some("all"), today))
  {
    NamedCutoffs(today);
    WindowGrows(rows, user, today - 7, today - 30, x);
    WindowGrows(rows, user, today - 7, today - 90, x);
    WindowGrows(rows, user, today - 7, today - 365, x);
    if today - 365 >= EPOCH {
      WindowGrows(rows, user, today - 7, EPOCH, x);
    }
  }

  lemma NamedCutoffs(today: Day)
    ensures Cutoff(Some("week"), today) == today - 7
    ensures Cutoff(Some("month"), today) == today - 30
    ensures Cutoff(Some("3months"), today) == today - 90
    ensures Cutoff(Some("year"), today) == today - 365
    ensures Cutoff(Some("all"), today) == EPOCH
  {
  }

  /** Moving the first day of a window earlier keeps every row it had. */
  lemma WindowGrows(rows: seq<Row>, user: Id, from: Day, earlier: Day, x: Row)
    requires earlier <= from
    requires x in Window(rows, user, from)
    ensures x in Window(rows, user, earlier)
  {
  }

  // ---------------------------------------------------------------- the average

  /** The total of the values, summed from the front. */
  function Sum(s: seq<int>): int {
    if s == [] then 0 else s[0] + Sum(s[1..])
  }

  /**
    `reduce((sum, row) => sum + row.value, 0)` accumulates front to back, so its last step
    adds the last row to the total of the others; `Sum`, defined from the head, takes that
    same step, so it is the total `reduce` computes.
  */
  lemma {:induction false} SumIsReduce(s: seq<int>)
    requires s != []
    ensures Sum(s) == Sum(s[..|s| - 1]) + s[|s| - 1]
  {
    if |s| > 1 {
      var init := s[..|s| - 1];
      assert init[0] == s[0] && init[1..] == s[1..][..|s| - 2];
      SumIsReduce(s[1..]);
    } else {
      assert s[..|s| - 1] == [] && s[1..] == [];
    }
  }

  /**
    `Math.round(total / n)`, rounding halves upwards, and 0 when there are no values:
    `r` is the integer within one half of the mean, the upper one on a tie.
  */
  function RoundedMean(s: seq<int>): (r: int)
    ensures s == [] ==> r == 0
    ensures s != [] ==> |s| * (2 * r - 1) <= 2 * Sum(s) < |s| * (2 * r + 1)
  {
    if s == [] then 0
    else
      var n := |s|;
      var q := (2 * Sum(s) + n) / (2 * n);
      assert 2 * n * q <= 2 * Sum(s) + n < 2 * n * q + 2 * n by {
        var m := (2 * Sum(s) + n) % (2 * n);
        assert 2 * Sum(s) + n == 2 * n * q + m && 0 <= m < 2 * n;
      }
      assert n * (2 * q - 1) == 2 * n * q - n && n * (2 * q + 1) == 2 * n * q + n;
      q
  }

  lemma {:induction false} SumBounds(s: seq<int>, lo: int, hi: int)
    requires forall i :: 0 <= i < |s| ==> lo <= s[i] <= hi
    ensures |s| * lo <= Sum(s) <= |s| * hi
  {
    if s != [] {
      SumBounds(s[1..], lo, hi);
      assert |s| * lo == lo + (|s| - 1) * lo;
      assert |s| * hi == hi + (|s| - 1) * hi;
    }
  }

  /** Multiplying by a positive number keeps order. */
  lemma ScaleCancels(n: int, a: int, b: int)
    requires n > 0
    ensures n * a <= n * b ==> a <= b
    ensures n * a < n * b ==> a < b
  {
  }

  /** The arithmetic behind `MeanWithinBounds`: an integer within one half of `t / n` lies between the bounds of `t / n`. */
  lemma RoundedBetween(n: int, r: int, t: int, lo: int, hi: int)
    requires n > 0
    requires n * (2 * r - 1) <= 2 * t < n * (2 * r + 1)
    requires n * lo <= t <= n * hi
    ensures lo <= r <= hi
  {
    assert n * (2 * hi) == 2 * (n * hi) && n * (2 * lo) == 2 * (n * lo);
    ScaleCancels(n, 2 * r - 1, 2 * hi);
    ScaleCancels(n, 2 * lo, 2 * r + 1);
  }

  /** The rounded mean lies between the smallest and the largest value. */
  lemma MeanWithinBounds(s: seq<int>, lo: int, hi: int)
    requires s != []
    requires forall i :: 0 <= i < |s| ==> lo <= s[i] <= hi
    ensures lo <= RoundedMean(s) <= hi
  {
    SumBounds(s, lo, hi);
    RoundedBetween(|s|, RoundedMean(s), Sum(s), lo, hi);
  }

  /** A window of equal values averages to that value. */
  lemma MeanOfConstant(s: seq<int>, c: int)
    requires s != []
    requires forall i :: 0 <= i < |s| ==> s[i] == c
    ensures RoundedMean(s) == c
  {
    MeanWithinBounds(s, c, c);
  }

  // ---------------------------------------------------------------- /statistics

  /** A chart series: the dates and the values of a window, position by position. */
  datatype Series = Series(dates: seq<Day>, values: seq<int>)

  /** The `statistics` object; `calorieDataGoal` is the `goal` the calorie chart carries. */
  datatype Summary = Summary(
    startingWeight: Option<int>,
    currentWeight: Option<int>,
    weightGoal: Option<int>,
    calorieGoal: Option<int>,
    averageCalories: int,
    weightData: Series,
    calorieData: Series,
    calorieDataGoal: Option<int>)

  /** A row the window of `user` from day `from` takes. */
  predicate InWindow(x: Row, rows: seq<Row>, user: Id, from: Day) {
    x in rows && x.userId == user && x.date >= from
  }

  /** Some row of the window was logged on day `d` with value `v`. */
  ghost predicate Logged(rows: seq<Row>, user: Id, from: Day, d: Day, v: int) {
    exists x :: x in rows && x.userId == user && x.date >= from && x.date == d && x.value == v
  }

  /** The row `x` is a point of the series. */
  ghost predicate Plotted(series: Series, x: Row) {
    exists i :: 0 <= i < |series.dates| && i < |series.values| && series.dates[i] == x.date && series.values[i] == x.value
  }

  /**
    `series` charts exactly the user's rows from day `from` on, oldest first: each
    point is a logged row and each row of the window is a point.
  */
  ghost predicate Charts(series: Series, rows: seq<Row>, user: Id, from: Day) {
    && |series.dates| == |series.values|
    && (forall i, j :: 0 <= i < j < |series.dates| ==> series.dates[i] <= series.dates[j])
    && (forall i :: 0 <= i < |series.dates| ==> Logged(rows, user, from, series.dates[i], series.values[i]))
    && (forall x :: InWindow(x, rows, user, from) ==> Plotted(series, x))
  }

  function SeriesOf(rows: seq<Row>): (series: Series)
    ensures |series.dates| == |series.values| == |rows|
    ensures forall i :: 0 <= i < |rows| ==> series.dates[i] == rows[i].date && series.values[i] == rows[i].value
  {
    Series(seq(|rows|, i requires 0 <= i < |rows| => rows[i].date), seq(|rows|, i requires 0 <= i < |rows| => rows[i].value))
  }

  lemma WindowCharts(rows: seq<Row>, user: Id, from: Day)
    ensures Charts(SeriesOf(Window(rows, user, from)), rows, user, from)
  {
    var w := Window(rows, user, from);
    SeriesOfSorted(w);
    SeriesOfPoints(w, rows, user, from);
  }

  lemma SeriesOfSorted(w: seq<Row>)
    requires SortedBy(w, DateLe)
    ensures var s := SeriesOf(w); forall i, j :: 0 <= i < j < |s.dates| ==> s.dates[i] <= s.dates[j]
  {
    var s := SeriesOf(w);
    forall i, j | 0 <= i < j < |s.dates| ensures s.dates[i] <= s.dates[j] {
      assert DateLe(w[i], w[j]);
    }
  }

  lemma SeriesOfPoints(w: seq<Row>, rows: seq<Row>, user: Id, from: Day)
    requires forall x :: x in w <==> InWindow(x, rows, user, from)
    ensures var s := SeriesOf(w);
      && (forall i :: 0 <= i < |s.dates| ==> Logged(rows, user, from, s.dates[i], s.values[i]))
      && (forall x :: InWindow(x, rows, user, from) ==> Plotted(s, x))
  {
    var s := SeriesOf(w);
    forall i | 0 <= i < |s.dates| ensures Logged(rows, user, from, s.dates[i], s.values[i]) {
      var x := w[i];
      assert x in w;
      assert x in rows && x.userId == user && x.date >= from && x.date == s.dates[i] && x.value == s.values[i];
    }
    forall x | InWindow(x, rows, user, from) ensures Plotted(s, x) {
      assert x in w;
      var i :| 0 <= i < |w| && w[i] == x;
      assert s.dates[i] == x.date && s.values[i] == x.value;
    }
  }

  /** `currentWeight`: the value of the user's newest weight row, else the weight on the profile. */
  function CurrentWeight(weights: seq<Row>, user: Id, stored: Option<int>): (w: Option<int>)
    ensures (forall x :: x in weights ==> x.userId != user) ==> w == stored
    ensures (exists x :: x in weights && x.userId == user) ==>
      exists x :: x in weights && x.userId == user && w == Some(x.value)
        && forall y :: y in weights && y.userId == user ==> y.date <= x.date
  {
    match Latest(weights, user)
    case None => stored
    case Some(x) => Some(x.value)
  }

  /**
    `GET /statistics`: both series cover the same window, the average is taken over
    the calorie series, and the goals and starting weight come from the profile. A
    caller without a `users` row makes the handler fail, answered 500.
  */
  function GetStatistics(users: seq<Accounts.User>, weights: seq<Row>, calories: seq<Row>, caller: Id,
                         period: Option<string>, today: Day): (r: Reply<Summary>)
    ensures r.Failure? <==> Accounts.FindById(users, caller).None?
    ensures r.Failure? ==> r == Failure(SERVER_ERROR, SERVER_ERROR_MESSAGE)
    ensures r.Success? ==>
      var u := Accounts.FindById(users, caller).value;
      var from := Cutoff(period, today);
      && r.status == OK
      && r.body.startingWeight == u.weight
      && r.body.weightGoal == u.weightGoal
      && r.body.calorieGoal == u.calorieGoal
      && r.body.calorieDataGoal == u.calorieGoal
      && Charts(r.body.weightData, weights, caller, from)
      && Charts(r.body.calorieData, calories, caller, from)
      && r.body.weightData == SeriesOf(Window(weights, caller, from))
      && r.body.calorieData == SeriesOf(Window(calories, caller, from))
      && r.body.averageCalories == RoundedMean(r.body.calorieData.values)
      && r.body.currentWeight == CurrentWeight(weights, caller, u.weight)
  {
    match Accounts.FindById(users, caller)
    case None => Failure(SERVER_ERROR, SERVER_ERROR_MESSAGE)
    case Some(u) =>
      var from := Cutoff(period, today);
      WindowCharts(weights, caller, from);
      WindowCharts(calories, caller, from);
      var cal := SeriesOf(Window(calories, caller, from));
      Success(OK, "", Summary(u.weight, CurrentWeight(weights, caller, u.weight), u.weightGoal, u.calorieGoal,
                              RoundedMean(cal.values), SeriesOf(Window(weights, caller, from)), cal, u.calorieGoal))
  }

  /** A series with a point charts a window with a row: an empty window charts as an empty series. */
  lemma ChartedNonEmpty(series: Series, rows: seq<Row>, user: Id, from: Day)
    requires Charts(series, rows, user, from)
    ensures series.values != [] ==> exists x :: InWindow(x, rows, user, from)
  {
    if series.values != [] {
      assert Logged(rows, user, from, series.dates[0], series.values[0]);
      var x :| x in rows && x.userId == user && x.date >= from && x.date == series.dates[0] && x.value == series.values[0];
      assert InWindow(x, rows, user, from);
    }
  }

  /** A series charting rows whose values are bounded has bounded values. */
  lemma ChartedBounded(series: Series, rows: seq<Row>, user: Id, from: Day, lo: int, hi: int)
    requires Charts(series, rows, user, from)
    requires forall x :: x in rows ==> lo <= x.value <= hi
    ensures forall i :: 0 <= i < |series.values| ==> lo <= series.values[i] <= hi
  {
    forall i | 0 <= i < |series.values| ensures lo <= series.values[i] <= hi {
      assert Logged(rows, user, from, series.dates[i], series.values[i]);
    }
  }

  /** With no calories logged in the window the average is 0; otherwise it lies within the logged values. */
  lemma AverageOfWindow(users: seq<Accounts.User>, weights: seq<Row>, calories: seq<Row>, caller: Id,
                        period: Option<string>, today: Day, lo: int, hi: int)
    requires Accounts.FindById(users, caller).Some?
    requires forall x :: x in calories ==> lo <= x.value <= hi
    ensures var s := GetStatistics(users, weights, calories, caller, period, today).body;
      && ((forall x :: x in calories ==> x.userId != caller || x.date < Cutoff(period, today)) ==> s.averageCalories == 0)
      && (s.calorieData.values != [] ==> lo <= s.averageCalories <= hi)
  {
    var s := GetStatistics(users, weights, calories, caller, period, today).body;
    if forall x :: x in calories ==> x.userId != caller || x.date < Cutoff(period, today) {
      ChartedNonEmpty(s.calorieData, calories, caller, Cutoff(period, today));
    }
    if s.calorieData.values != [] {
      ChartedBounded(s.calorieData, calories, caller, Cutoff(period, today), lo, hi);
      MeanWithinBounds(s.calorieData.values, lo, hi);
    }
  }

  // ---------------------------------------------------------------- /monthly-data

  /** `WHERE user_id = $1 AND date >= $2 AND date <= $3`, in stored order (the query has no `ORDER BY`). */
  function MonthRows(rows: seq<Row>, user: Id, first: Day, last: Day): (r: seq<Row>)
    ensures forall x :: x in r <==> x in rows && x.userId == user && first <= x.date <= last
  {
    Filter(rows, (x: Row) => x.userId == user && first <= x.date <= last)
  }

  /**
    `m` is what `forEach(row => m[row.date] = row.value)` leaves after the first `n`
    rows: a key for each date seen, holding the value of the last row with that date.
  */
  ghost predicate LastWritten(sel: seq<Row>, n: nat, m: map<Day, int>)
    requires n <= |sel|
  {
    && (forall d :: d in m <==> exists j :: 0 <= j < n && sel[j].date == d)
    && (forall d :: d in m ==>
          exists j :: 0 <= j < n && sel[j].date == d && m[d] == sel[j].value && forall k :: j < k < n ==> sel[k].date != d)
  }

  /** The `forEach` that fills the date-keyed map. */
  method DayMap(sel: seq<Row>) returns (m: map<Day, int>)
    ensures LastWritten(sel, |sel|, m)
  {
    m := map[];
    var i := 0;
    while i < |sel|
      invariant 0 <= i <= |sel|
      invariant LastWritten(sel, i, m)
    {
      var x := sel[i];
      m := m[x.date := x.value];
      i := i + 1;
      forall d | d in m
        ensures exists j :: 0 <= j < i && sel[j].date == d && m[d] == sel[j].value && forall k :: j < k < i ==> sel[k].date != d
      {
        if d == x.date {
          assert sel[i - 1].date == d;
        } else {
          var j :| 0 <= j < i - 1 && sel[j].date == d && m[d] == sel[j].value && forall k :: j < k < i - 1 ==> sel[k].date != d;
          assert forall k :: j < k < i ==> sel[k].date != d;
        }
      }
    }
  }

  datatype Month = Month(weights: map<Day, int>, calories: map<Day, int>)

  /**
    The map of one table: a key for exactly the days of the month the user logged,
    and, under the natural key, the value logged for that day.
  */
  ghost predicate MapsMonth(m: map<Day, int>, rows: seq<Row>, user: Id, first: Day, last: Day) {
    && (forall d :: d in m <==> first <= d <= last && exists x :: x in rows && HasKey(x, user, d))
    && (forall d :: d in m ==> exists x :: x in rows && HasKey(x, user, d) && m[d] == x.value)
    && (KeyUnique(rows) ==> forall d :: d in m ==> ByDate(rows, user, d).Some? && m[d] == ByDate(rows, user, d).value.value)
  }

  lemma MonthMapMeaning(rows: seq<Row>, user: Id, first: Day, last: Day, m: map<Day, int>)
    requires LastWritten(MonthRows(rows, user, first, last), |MonthRows(rows, user, first, last)|, m)
    ensures MapsMonth(m, rows, user, first, last)
  {
    var sel := MonthRows(rows, user, first, last);
    forall d ensures d in m <==> first <= d <= last && exists x :: x in rows && HasKey(x, user, d) {
      if first <= d <= last && exists x :: x in rows && HasKey(x, user, d) {
        var x :| x in rows && HasKey(x, user, d);
        assert x in sel;
        var j :| 0 <= j < |sel| && sel[j] == x;
      }
      if d in m {
        var j :| 0 <= j < |sel| && sel[j].date == d;
        assert sel[j] in sel;
      }
    }
    forall d | d in m ensures exists x :: x in rows && HasKey(x, user, d) && m[d] == x.value {
      var j :| 0 <= j < |sel| && sel[j].date == d && m[d] == sel[j].value;
      assert sel[j] in sel;
    }
    if KeyUnique(rows) {
      forall d | d in m ensures ByDate(rows, user, d).Some? && m[d] == ByDate(rows, user, d).value.value {
        var j :| 0 <= j < |sel| && sel[j].date == d && m[d] == sel[j].value;
        assert sel[j] in sel;
        ByDateIsTheRow(rows, sel[j]);
      }
    }
  }

  /**
    `GET /monthly-data`: for each table, a map from each day of the month the caller
    logged to the value logged; rows of other users and other months do not appear.
  */
  method MonthlyData(weights: seq<Row>, calories: seq<Row>, caller: Id, first: Day, last: Day) returns (reply: Reply<Month>)
    ensures reply.Success? && reply.status == OK
    ensures MapsMonth(reply.body.weights, weights, caller, first, last)
    ensures MapsMonth(reply.body.calories, calories, caller, first, last)
  {
    var w := DayMap(MonthRows(weights, caller, first, last));
    MonthMapMeaning(weights, caller, first, last, w);
    var c := DayMap(MonthRows(calories, caller, first, last));
    MonthMapMeaning(calories, caller, first, last, c);
    reply := Success(OK, "", Month(w, c));
  }
}

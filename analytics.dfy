/** The analytics card: totals, the 365-day streak scan, the monthly goal
    progress, the weekly completion rate and the daily average, computed from
    the user's task rows, achievements, goals and goal targets. */
module Analytics {
  import opened Common
  import opened Collections
  import opened Rows
  import opened TaskHistory
  import opened MonthlyGoals

  datatype AnalyticsData = AnalyticsData(
    totalTasksCompleted: nat,
    totalAchievements: nat,
    currentStreak: nat,
    longestStreak: nat,
    monthlyGoalProgress: nat,
    weeklyCompletionRate: nat,
    dailyAverage: nat)

  /** The streak loop of `loadAnalytics`. `current` is only assigned at
      offset 0, so it is 1 when today is complete and 0 otherwise; `longest`
      is the longest block of consecutive complete days in the window. */
  method ScanStreaks(h: History, today: int) returns (current: nat, longest: nat)
    ensures current == if CompleteAt(h, today, 0) then 1 else 0
    ensures longest == MaxRun(h, today, WindowDays)
    ensures exists lo, hi :: 0 <= lo <= hi <= WindowDays && hi - lo == longest && AllComplete(h, today, lo, hi)
    ensures forall lo, hi :: 0 <= lo <= hi <= WindowDays && AllComplete(h, today, lo, hi) ==> hi - lo <= longest
    ensures current <= longest <= WindowDays
  {
    current, longest := 0, 0;
    var tempStreak := 0;
    for i := 0 to WindowDays
      invariant tempStreak == if i == 0 then 0 else Run(h, today, i - 1)
      invariant longest == MaxRun(h, today, i)
      invariant current == if i > 0 && CompleteAt(h, today, 0) then 1 else 0
    {
      var dayTasks := DayTasks(h, today - i);
      var allCompleted := IsDayComplete(dayTasks);
      if allCompleted {
        tempStreak := tempStreak + 1;
        if i == 0 {
          current := tempStreak;
        }
        longest := if longest >= tempStreak then longest else tempStreak;
      } else {
        tempStreak := 0;
      }
    }
    MaxRunIsLongestBlock(h, today, WindowDays);
    MaxRunAtLeastRun(h, today, WindowDays, 0);
  }

  /** `tasks.filter(t => t.is_completed).length`. */
  function TotalTasksCompleted(tasks: seq<DailyTask>): (n: nat)
    ensures n <= |tasks|
    ensures n == |tasks| <==> forall i :: 0 <= i < |tasks| ==> tasks[i].isCompleted
    ensures n == 0 <==> forall i :: 0 <= i < |tasks| ==> !tasks[i].isCompleted
  {
    CountAll(tasks, IsTaskCompleted);
    CountNone(tasks, IsTaskCompleted);
    Count(tasks, IsTaskCompleted)
  }

  /** The targets of the goals set for this month (1-based) and year. */
  function CurrentMonthTargets(goals: seq<MonthlyGoal>, targets: seq<MonthlyGoalTarget>, month: int, year: int)
    : (r: seq<MonthlyGoalTarget>)
    ensures forall t :: t in r <==> (t in targets
      && exists g :: g in goals && g.month == month && g.year == year && g.id == t.goalId)
  {
    var current := Filter(goals, (g: MonthlyGoal) => g.month == month && g.year == year);
    Filter(targets, (t: MonthlyGoalTarget) => exists g :: g in current && g.id == t.goalId)
  }

  /** `monthlyGoalProgress`: the progress of this month's targets taken
      together, 0 when there are none. */
  function MonthlyGoalProgress(goals: seq<MonthlyGoal>, targets: seq<MonthlyGoalTarget>, month: int, year: int)
    : (r: nat)
    ensures r <= 100
    ensures CurrentMonthTargets(goals, targets, month, year) == [] ==> r == 0
    ensures var ts := CurrentMonthTargets(goals, targets, month, year);
      ts != [] && (forall i :: 0 <= i < |ts| ==> ts[i].isCompleted) ==> r == 100
    ensures var ts := CurrentMonthTargets(goals, targets, month, year);
      (forall i :: 0 <= i < |ts| ==> !ts[i].isCompleted) ==> r == 0
    ensures var ts := CurrentMonthTargets(goals, targets, month, year);
      ts != [] ==> r == RoundPercent(Count(ts, IsTargetCompleted), |ts|)
  {
    GetProgress(CurrentMonthTargets(goals, targets, month, year))
  }

  /** `weeklyCompletionRate`: the complete days among the seven ending today,
      as a whole percentage. */
  function WeeklyRate(h: History, today: int): (r: nat)
    ensures r <= 100
    ensures 14 * r <= 200 * CountComplete(h, today, 7) + 7 < 14 * (r + 1)
    ensures r == 100 <==> AllComplete(h, today, 0, 7)
    ensures r == 0 <==> forall k :: 0 <= k < 7 ==> !CompleteAt(h, today, k)
  {
    CountCompleteAll(h, today, 7);
    CountCompleteNone(h, today, 7);
    RoundPercent(CountComplete(h, today, 7), 7)
  }

  /** The dates whose rows make a complete day. */
  function IsCompleteDate(h: History): int -> bool {
    (d: int) => IsDayComplete(DayTasks(h, d))
  }

  /** `dailyAverage`: the complete dates among all dates that have task rows,
      as a whole percentage, 0 when there are no dates. */
  function DailyAverage(h: History, dates: seq<int>): (r: nat)
    ensures r <= 100
    ensures dates == [] ==> r == 0
    ensures dates != [] ==> var c, n := Count(dates, IsCompleteDate(h)), |dates|;
      2 * n * r <= 200 * c + n < 2 * n * (r + 1)
    ensures dates != [] && (forall i :: 0 <= i < |dates| ==> IsDayComplete(DayTasks(h, dates[i]))) ==> r == 100
    ensures (forall i :: 0 <= i < |dates| ==> !IsDayComplete(DayTasks(h, dates[i]))) ==> r == 0
    ensures 0 < |dates| < 200 ==> (r == 100 <==> forall i :: 0 <= i < |dates| ==> IsDayComplete(DayTasks(h, dates[i])))
  {
    var p := IsCompleteDate(h);
    if |dates| == 0 then 0
    else
      CountAll(dates, p);
      CountNone(dates, p);
      RoundPercent(Count(dates, p), |dates|)
  }

  /** `loadAnalytics` on the rows read from the store, for the day `today`
      in month `month` (1-based) of `year`. Also returns `taskHistory`. */
  method LoadAnalytics(
    tasks: seq<DailyTask>, achievements: seq<DailyAchievement>, goals: seq<MonthlyGoal>,
    targets: seq<MonthlyGoalTarget>, today: int, month: int, year: int)
    returns (a: AnalyticsData, h: History)
    ensures forall d :: DayTasks(h, d) == Bucket(tasks, CreatedDay, d)
    ensures a.totalTasksCompleted == TotalTasksCompleted(tasks)
    ensures a.totalAchievements == |achievements|
    ensures a.currentStreak == if CompleteAt(h, today, 0) then 1 else 0
    ensures a.longestStreak == MaxRun(h, today, WindowDays)
    ensures a.currentStreak <= a.longestStreak <= WindowDays
    ensures a.monthlyGoalProgress == MonthlyGoalProgress(goals, targets, month, year)
    ensures a.weeklyCompletionRate == WeeklyRate(h, today)
    ensures a.dailyAverage == DailyAverage(h, Keys(tasks, CreatedDay))
  {
    var dates;
    h, dates := GroupByDay(tasks);
    var current, longest := ScanStreaks(h, today);
    a := AnalyticsData(
      TotalTasksCompleted(tasks), |achievements|, current, longest,
      MonthlyGoalProgress(goals, targets, month, year), WeeklyRate(h, today), DailyAverage(h, dates));
  }
}

/** The streak calendar: the set of complete days in the last 365 days with
    the streak it reports, and the cells of one month's grid. */
module StreakCalendar {
  import opened Collections
  import opened Rows
  import opened TaskHistory
  import opened Calendar

  /** The scan of `loadCompletedDays` over a grouped history. `today` is the
      day the calendar treats as today. Every complete day of the window goes
      into `completed`; the streak only grows when today is complete, and
      then counts every complete day, gaps notwithstanding. */
  method ScanCompletedDays(h: History, today: int) returns (completed: set<int>, streak: nat)
    ensures forall d :: d in completed <==> today - WindowDays < d <= today && IsDayComplete(DayTasks(h, d))
    ensures streak == if CompleteAt(h, today, 0) then CountComplete(h, today, WindowDays) else 0
  {
    completed, streak := {}, 0;
    for i := 0 to WindowDays
      invariant forall d :: d in completed <==> today - i < d <= today && IsDayComplete(DayTasks(h, d))
      invariant streak == if i > 0 && CompleteAt(h, today, 0) then CountComplete(h, today, i) else 0
    {
      var dateStr := today - i;
      var dayTasks := DayTasks(h, dateStr);
      var allCompleted := IsDayComplete(dayTasks);
      if i > 0 && CompleteAt(h, today, 0) {
        LeadingRunAtMostCount(h, today, 1, i);
      }
      if allCompleted {
        completed := completed + {dateStr};
        if i == 0 || streak > 0 {
          streak := streak + 1;
        }
      } else if i == 0 {
        streak := 0;
      }
    }
  }

  /** `loadCompletedDays`: groups every task row by creation day, then scans. */
  method LoadCompletedDays(allTasks: seq<DailyTask>, today: int) returns (completed: set<int>, streak: nat, h: History)
    ensures forall d :: DayTasks(h, d) == Bucket(allTasks, CreatedDay, d)
    ensures forall d :: d in completed <==> today - WindowDays < d <= today && IsDayComplete(DayTasks(h, d))
    ensures streak == if CompleteAt(h, today, 0) then CountComplete(h, today, WindowDays) else 0
  {
    var dates;
    h, dates := GroupByDay(allTasks);
    completed, streak := ScanCompletedDays(h, today);
  }

  /** Unlike the streak beside the task list, this one goes on past a gap:
      today and the day before yesterday complete, yesterday not, gives at
      least two. */
  lemma StreakCountsPastGaps(h: History, today: int)
    requires CompleteAt(h, today, 0) && !CompleteAt(h, today, 1) && CompleteAt(h, today, 2)
    ensures CountComplete(h, today, WindowDays) >= 2
  {
    assert CountComplete(h, today, 1) == 1;
    assert CountComplete(h, today, 3) == 2;
    CountCompleteMonotone(h, today, 3, WindowDays);
  }

  // ---------------------------------------------------------------------
  // The month grid.

  /** One cell of the grid (`DayData`); `date` is a day number. */
  datatype DayCell = DayCell(date: int, completed: bool, isToday: bool, isCurrentMonth: bool)

  lemma WeekdayOffset(first: int, i: int)
    ensures Weekday(first - Weekday(first) + i) == ((i % 7) + 7) % 7
  {
  }

  /** `getDaysInMonth` for month `month` (0-based) of `year`: filler cells
      for the days of the previous month that share the first week, then one
      cell per day of the month, and nothing after. Cell `i` falls on weekday
      `i % 7`, so every row starts on a Sunday. */
  method MonthGrid(year: int, month: int, completedDays: set<int>, today: int) returns (days: seq<DayCell>)
    requires 0 <= month < 12
    ensures var first, start := DayNumber(year, month, 1), Weekday(DayNumber(year, month, 1));
      && |days| == start + DaysInMonth(year, month)
      && (forall i :: 0 <= i < |days| ==> days[i].date == first - start + i && Weekday(days[i].date) == i % 7)
      && (forall i :: 0 <= i < start ==> days[i] == DayCell(first - start + i, false, false, false))
      && (forall i :: start <= i < |days| ==>
            days[i].isCurrentMonth && days[i].completed == (days[i].date in completedDays)
            && days[i].isToday == (days[i].date == today))
    ensures forall i, j :: 0 <= i < |days| && 0 <= j < |days| && days[i].isToday && days[j].isToday ==> i == j
  {
    var first := DayNumber(year, month, 1);
    var daysInMonth := DaysInMonth(year, month);
    var startingDayOfWeek := Weekday(first);
    days := [];
    for i := 0 to startingDayOfWeek
      invariant |days| == i
      invariant forall j :: 0 <= j < i ==> days[j] == DayCell(first - startingDayOfWeek + j, false, false, false)
    {
      var prevDate := DayNumber(year, month, -startingDayOfWeek + i + 1);
      days := days + [DayCell(prevDate, false, false, false)];
    }
    for day := 1 to daysInMonth + 1
      invariant |days| == startingDayOfWeek + day - 1
      invariant forall j :: 0 <= j < startingDayOfWeek ==> days[j] == DayCell(first - startingDayOfWeek + j, false, false, false)
      invariant forall j :: startingDayOfWeek <= j < |days| ==>
        days[j] == DayCell(first - startingDayOfWeek + j, first - startingDayOfWeek + j in completedDays,
                   first - startingDayOfWeek + j == today, true)
    {
      var dateStr := DayNumber(year, month, day);
      var completed := dateStr in completedDays;
      var isToday := dateStr == today;
      days := days + [DayCell(dateStr, completed, isToday, true)];
    }
    forall i | 0 <= i < |days| ensures Weekday(days[i].date) == i % 7 {
      WeekdayOffset(first, i);
    }
  }

  /** The month cells run from the first of the month up to the day before
      the first of the next month. */
  lemma MonthCellsSpanMonth(year: int, month: int)
    requires 0 <= month < 12
    ensures DayNumber(year, month, 1) + DaysInMonth(year, month)
      == if month < 11 then DayNumber(year, month + 1, 1) else DayNumber(year + 1, 0, 1)
  {
    MonthStep(year, month);
    if month == 11 {
      YearEnd(year);
    }
  }
}

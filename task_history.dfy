/** The completion rule and the day-by-day history that the analytics card,
    the daily task list and the streak calendar each compute from all of the
    user's `daily_tasks` rows. Days are looked at by their offset `i` from
    today: offset 0 is today, offset `i` is the day `today - i`. */
module TaskHistory {
  import opened Collections
  import opened Rows

  /** A day needs at least this many task rows to count. */
  const MinTasksPerDay := 9

  /** Every streak scan looks at this many days, today included. */
  const WindowDays := 365

  /** The `taskHistory` dictionary: task rows grouped by creation day. */
  type History = map<int, seq<DailyTask>>

  function IsTaskCompleted(t: DailyTask): bool {
    t.isCompleted
  }

  /** The completion rule: at least nine rows, all of them completed. */
  predicate IsDayComplete(dayTasks: seq<DailyTask>) {
    |dayTasks| >= MinTasksPerDay && forall i :: 0 <= i < |dayTasks| ==> dayTasks[i].isCompleted
  }

  /** The rule seen through the completed count the task list displays:
      a day is complete iff it has at least nine rows and as many completed
      rows as rows. In particular an empty or partly seeded day never is. */
  lemma CompleteIffAllCounted(dayTasks: seq<DailyTask>)
    ensures IsDayComplete(dayTasks)
        <==> |dayTasks| >= MinTasksPerDay && Count(dayTasks, IsTaskCompleted) == |dayTasks|
    ensures |dayTasks| < MinTasksPerDay ==> !IsDayComplete(dayTasks)
  {
    CountAll(dayTasks, IsTaskCompleted);
  }

  /** `taskHistory[date] || []`. */
  function DayTasks(h: History, day: int): seq<DailyTask> {
    if day in h then h[day] else []
  }

  /** `h` and `dates` hold the grouping of the rows `s`: the dates in
      first-appearance order, and under each the rows of that day. */
  ghost predicate Grouped(h: History, dates: seq<int>, s: seq<DailyTask>) {
    && dates == Keys(s, CreatedDay)
    && (forall d :: d in h <==> d in dates)
    && (forall d :: d in h ==> h[d] == Bucket(s, CreatedDay, d))
  }

  /** One step of the `reduce`: create the day's list when it is missing,
      then push the row onto it. */
  lemma GroupStep(h: History, dates: seq<int>, s: seq<DailyTask>, task: DailyTask)
    requires Grouped(h, dates, s)
    ensures var day := CreatedDay(task);
      var h1 := if day in h then h else h[day := []];
      var dates1 := if day in h then dates else dates + [day];
      Grouped(h1[day := h1[day] + [task]], dates1, s + [task])
  {
    var day := CreatedDay(task);
    KeysSnoc(s, task, CreatedDay);
    if day !in h {
      BucketAbsent(s, CreatedDay, day);
    }
    var h1 := if day in h then h else h[day := []];
    var h2 := h1[day := h1[day] + [task]];
    forall d | d in h2 ensures h2[d] == Bucket(s + [task], CreatedDay, d) {
      BucketSnoc(s, task, CreatedDay, d);
    }
  }

  /** The `reduce` that buckets every row under the UTC day of its
      `created_at`. `dates` lists the keys in insertion order, as
      `Object.keys(taskHistory)` does. */
  method GroupByDay(tasks: seq<DailyTask>) returns (h: History, dates: seq<int>)
    ensures dates == Keys(tasks, CreatedDay)
    ensures forall d :: d in h <==> d in dates
    ensures forall d :: DayTasks(h, d) == Bucket(tasks, CreatedDay, d)
  {
    h, dates := map[], [];
    var i := 0;
    while i < |tasks|
      invariant 0 <= i <= |tasks|
      invariant Grouped(h, dates, tasks[..i])
    {
      var task := tasks[i];
      var day := CreatedDay(task);
      GroupStep(h, dates, tasks[..i], task);
      assert tasks[..i + 1] == tasks[..i] + [task];
      if day !in h {
        h := h[day := []];
        dates := dates + [day];
      }
      h := h[day := h[day] + [task]];
      i := i + 1;
    }
    assert tasks[..i] == tasks;
    forall d ensures DayTasks(h, d) == Bucket(tasks, CreatedDay, d) {
      if d !in h {
        BucketAbsent(tasks, CreatedDay, d);
      }
    }
  }

  /** Every row falls into exactly one day bucket: the buckets of all
      dates together hold as many rows as there are tasks. */
  lemma BucketsCoverTasks(tasks: seq<DailyTask>)
    ensures SumSizes(tasks, CreatedDay, Keys(tasks, CreatedDay)) == |tasks|
    ensures forall t :: t in tasks ==> t in Bucket(tasks, CreatedDay, CreatedDay(t))
  {
    BucketSizesSum(tasks, CreatedDay);
  }

  // ---------------------------------------------------------------------
  // Reference definitions over day offsets.

  /** Day offset `i` (the day `today - i`) is complete. */
  predicate CompleteAt(h: History, today: int, i: int) {
    IsDayComplete(DayTasks(h, today - i))
  }

  /** Offsets `lo .. hi - 1` are all complete. */
  ghost predicate AllComplete(h: History, today: int, lo: int, hi: int) {
    forall k :: lo <= k < hi ==> CompleteAt(h, today, k)
  }

  /** Number of complete days among offsets `0 .. n - 1`. */
  function CountComplete(h: History, today: int, n: nat): (c: nat)
    ensures c <= n
  {
    if n == 0 then 0 else CountComplete(h, today, n - 1) + (if CompleteAt(h, today, n - 1) then 1 else 0)
  }

  /** Length of the run of complete offsets that ends at offset `i` and
      reaches back towards offset 0 (`tempStreak` after step `i`). */
  function Run(h: History, today: int, i: nat): (r: nat)
    ensures r <= i + 1
  {
    if !CompleteAt(h, today, i) then 0
    else if i == 0 then 1
    else Run(h, today, i - 1) + 1
  }

  /** The largest `Run` among offsets `0 .. n - 1`. */
  function MaxRun(h: History, today: int, n: nat): (m: nat)
    ensures m <= n
  {
    if n == 0 then 0
    else
      var prev := MaxRun(h, today, n - 1);
      var run := Run(h, today, n - 1);
      if run > prev then run else prev
  }

  /** `Run(i)` counts complete days: offsets `i + 1 - Run(i) .. i` are all
      complete, and any block of complete offsets ending at `i` is no longer. */
  lemma {:induction false} RunIsMaximalBlock(h: History, today: int, n: nat)
    requires n >= 1
    ensures AllComplete(h, today, n - Run(h, today, n - 1), n)
    ensures forall lo :: 0 <= lo <= n && AllComplete(h, today, lo, n) ==> n - lo <= Run(h, today, n - 1)
  {
    if n > 1 {
      RunIsMaximalBlock(h, today, n - 1);
      forall lo | 0 <= lo <= n && AllComplete(h, today, lo, n)
        ensures n - lo <= Run(h, today, n - 1)
      {
        if lo < n {
          assert CompleteAt(h, today, n - 1);
          assert AllComplete(h, today, lo, n - 1);
        }
      }
    } else {
      forall lo | 0 <= lo <= 1 && AllComplete(h, today, lo, 1)
        ensures 1 - lo <= Run(h, today, 0)
      {
        if lo == 0 {
          assert CompleteAt(h, today, 0);
        }
      }
    }
  }

  lemma {:induction false} MaxRunAtLeastRun(h: History, today: int, n: nat, i: nat)
    requires i < n
    ensures Run(h, today, i) <= MaxRun(h, today, n)
    decreases n
  {
    if i < n - 1 {
      MaxRunAtLeastRun(h, today, n - 1, i);
    }
  }

  /** `MaxRun(n)` is the length of the longest block of consecutive complete
      days among offsets `0 .. n - 1`: one such block has that length and
      none is longer. */
  lemma {:induction false} MaxRunIsLongestBlock(h: History, today: int, n: nat)
    ensures exists lo, hi :: 0 <= lo <= hi <= n && hi - lo == MaxRun(h, today, n) && AllComplete(h, today, lo, hi)
    ensures forall lo, hi :: 0 <= lo <= hi <= n && AllComplete(h, today, lo, hi) ==> hi - lo <= MaxRun(h, today, n)
  {
    if n == 0 {
      assert AllComplete(h, today, 0, 0);
    } else {
      MaxRunIsLongestBlock(h, today, n - 1);
      RunIsMaximalBlock(h, today, n);
      var run := Run(h, today, n - 1);
      if run > MaxRun(h, today, n - 1) {
        assert AllComplete(h, today, n - run, n);
      } else {
        var lo, hi :| 0 <= lo <= hi <= n - 1 && hi - lo == MaxRun(h, today, n - 1) && AllComplete(h, today, lo, hi);
        assert hi <= n;
      }
      forall lo, hi | 0 <= lo <= hi <= n && AllComplete(h, today, lo, hi)
        ensures hi - lo <= MaxRun(h, today, n)
      {
        if lo < hi {
          RunIsMaximalBlock(h, today, hi);
          MaxRunAtLeastRun(h, today, n, hi - 1);
        }
      }
    }
  }

  /** A run of complete days that starts today is never longer than the
      longest run in a window that contains it. */
  lemma LeadingRunAtMostLongest(h: History, today: int, n: nat, w: nat)
    requires n <= w && AllComplete(h, today, 0, n)
    ensures n <= MaxRun(h, today, w)
  {
    MaxRunIsLongestBlock(h, today, w);
  }

  /** ... nor longer than the number of complete days in that window. */
  lemma {:induction false} LeadingRunAtMostCount(h: History, today: int, n: nat, w: nat)
    requires n <= w && AllComplete(h, today, 0, n)
    ensures n <= CountComplete(h, today, w)
    decreases w
  {
    if n > 0 {
      if n == w {
        LeadingRunAtMostCount(h, today, n - 1, w - 1);
        assert CompleteAt(h, today, w - 1);
      } else {
        LeadingRunAtMostCount(h, today, n, w - 1);
      }
    }
  }

  lemma {:induction false} CountCompleteMonotone(h: History, today: int, m: nat, n: nat)
    requires m <= n
    ensures CountComplete(h, today, m) <= CountComplete(h, today, n)
    decreases n
  {
    if m < n {
      CountCompleteMonotone(h, today, m, n - 1);
    }
  }

  /** Every offset of the window is complete exactly when all of them count. */
  lemma {:induction false} CountCompleteAll(h: History, today: int, n: nat)
    ensures CountComplete(h, today, n) == n <==> AllComplete(h, today, 0, n)
  {
    if n > 0 {
      CountCompleteAll(h, today, n - 1);
    }
  }

  /** No offset of the window is complete exactly when none counts. */
  lemma {:induction false} CountCompleteNone(h: History, today: int, n: nat)
    ensures CountComplete(h, today, n) == 0 <==> forall k :: 0 <= k < n ==> !CompleteAt(h, today, k)
  {
    if n > 0 {
      CountCompleteNone(h, today, n - 1);
    }
  }
}

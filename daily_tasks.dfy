/** The daily task list: the leading streak shown beside it, the "Streak
    Day" banner, toggling one task, seeding today's list from the user's
    template (or the built-in defaults), saving the template and relabelling
    today's unfinished tasks to match it. */
module DailyTasks {
  import opened Common
  import opened Collections
  import opened Strings
  import opened Rows
  import opened TaskHistory

  /** The list used when the user has no template. */
  const DefaultTasks: seq<string> := [
    "Deep Focus Block (Solidity/JS)",
    "Airdrop Farming",
    "Content Creation (Threads)",
    "Twitter Reply-Guy",
    "Leisure (30m Games/Books)",
    "Debug / Practice",
    "Side Project",
    "Twitter 2nd Round + Farming Logs",
    "Reflection + Plan"
  ]

  // ---------------------------------------------------------------------
  // The streak beside the list.

  /** The scan of `loadStreak` over a grouped history: counts complete days
      back from today and stops at the first one that is not. */
  method LeadingStreak(h: History, today: int) returns (streak: nat)
    ensures streak <= WindowDays
    ensures AllComplete(h, today, 0, streak)
    ensures streak < WindowDays ==> !CompleteAt(h, today, streak)
    ensures forall n :: streak < n <= WindowDays ==> !AllComplete(h, today, 0, n)
    ensures streak <= CountComplete(h, today, WindowDays) && streak <= MaxRun(h, today, WindowDays)
  {
    streak := 0;
    var i := 0;
    while i < WindowDays
      invariant 0 <= i <= WindowDays && streak == i
      invariant AllComplete(h, today, 0, streak)
    {
      var dayTasks := DayTasks(h, today - i);
      var allCompleted := IsDayComplete(dayTasks);
      if allCompleted {
        streak := streak + 1;
      } else {
        break;
      }
      i := i + 1;
    }
    LeadingRunAtMostCount(h, today, streak, WindowDays);
    LeadingRunAtMostLongest(h, today, streak, WindowDays);
  }

  /** `loadStreak`: groups every task row by creation day, then scans. */
  method LoadStreak(allTasks: seq<DailyTask>, today: int) returns (streak: nat, h: History)
    ensures forall d :: DayTasks(h, d) == Bucket(allTasks, CreatedDay, d)
    ensures streak <= WindowDays
    ensures AllComplete(h, today, 0, streak)
    ensures streak < WindowDays ==> !CompleteAt(h, today, streak)
  {
    var dates;
    h, dates := GroupByDay(allTasks);
    streak := LeadingStreak(h, today);
  }

  // ---------------------------------------------------------------------
  // The banner and the toggle.

  /** `allCompleted` of the rendered list: as many completed tasks as tasks,
      and at least nine of them. It is the completion rule of a day. */
  function ShowsStreakBanner(tasks: seq<DailyTask>): (b: bool)
    ensures b <==> IsDayComplete(tasks)
  {
    CompleteIffAllCounted(tasks);
    Count(tasks, IsTaskCompleted) == |tasks| && |tasks| >= MinTasksPerDay
  }

  /** `handleToggleCompletion(index)`: flips one task, writes the new state
      of that row, and asks for a completion record when every task of the
      updated list is completed. For an index with no task nothing happens. */
  method ToggleCompletion(tasks: seq<DailyTask>, index: int)
    returns (updated: seq<DailyTask>, write: Option<DailyTask>, record: bool)
    ensures |updated| == |tasks|
    ensures 0 <= index < |tasks| ==> updated[index] == tasks[index].(isCompleted := !tasks[index].isCompleted)
    ensures forall j :: 0 <= j < |tasks| && j != index ==> updated[j] == tasks[j]
    ensures write.Some? <==> 0 <= index < |tasks|
    ensures write.Some? ==> write.value == updated[index]
    ensures record <==> 0 <= index < |tasks| && forall j :: 0 <= j < |updated| ==> updated[j].isCompleted
  {
    if 0 <= index < |tasks| {
      var taskToUpdate := tasks[index];
      var flipped := taskToUpdate.(isCompleted := !taskToUpdate.isCompleted);
      updated := tasks[index := flipped];
      write := Some(flipped);
      record := forall j :: 0 <= j < |updated| ==> updated[j].isCompleted;
    } else {
      updated, write, record := tasks, None, false;
    }
  }

  /** The completion record does not check for nine tasks: completing the
      only task of a one-task list asks for a record while the banner, which
      needs nine, stays hidden. */
  lemma RecordWithoutBanner(t: DailyTask)
    requires !t.isCompleted
    ensures var updated := [t.(isCompleted := true)];
      (forall j :: 0 <= j < |updated| ==> updated[j].isCompleted) && !ShowsStreakBanner(updated)
  {
  }

  // ---------------------------------------------------------------------
  // Templates and seeding.

  /** The labels of template rows, in row order. */
  function Labels(rows: seq<TemplateRow>): (r: seq<string>)
    ensures |r| == |rows| && forall i :: 0 <= i < |r| ==> r[i] == rows[i].task
    decreases |rows|
  {
    if rows == [] then [] else [rows[0].task] + Labels(rows[1..])
  }

  /** `sourceTasks`: the template labels in ascending `sort_order` (ties in
      stored order), or the default list when there is no template. */
  function SourceTasks(template: seq<TemplateRow>): (r: seq<string>)
    ensures template == [] ==> r == DefaultTasks
    ensures template != [] ==> exists sorted ::
      && SortedBy(sorted, SortOrder) && multiset(sorted) == multiset(template)
      && (forall k :: Filter(sorted, KeyIs(SortOrder, k)) == Filter(template, KeyIs(SortOrder, k)))
      && r == Labels(sorted)
    ensures |r| == if template == [] then |DefaultTasks| else |template|
  {
    SortByStable(template, SortOrder);
    if template == [] then DefaultTasks else Labels(SortBy(template, SortOrder))
  }

  /** A `daily_tasks` row to insert. */
  datatype TaskInsert = TaskInsert(task: string, isCompleted: bool, createdAt: int, taskDate: int)

  /** The seed rows: one incomplete task per label, in label order, created
      at `now` and dated `today`. */
  function Seed(labels: seq<string>, now: int, today: int): (r: seq<TaskInsert>)
    ensures |r| == |labels|
    ensures forall i :: 0 <= i < |r| ==> r[i].task == labels[i] && !r[i].isCompleted
    ensures forall i :: 0 <= i < |r| ==> r[i].createdAt == now && r[i].taskDate == today
    decreases |labels|
  {
    if labels == [] then [] else [TaskInsert(labels[0], false, now, today)] + Seed(labels[1..], now, today)
  }

  /** What `loadTasks` inserts and which list it shows. */
  datatype LoadOutcome = LoadOutcome(inserted: seq<TaskInsert>, shown: seq<DailyTask>)

  /** `loadTasks`: `todayTasks` are the rows dated today, `template` the
      user's template rows and `seeded` the rows the store returns for an
      insert. With no rows today the day is seeded and the seeded rows are
      shown; otherwise today's rows are shown in creation order. */
  function LoadTasks(todayTasks: seq<DailyTask>, template: seq<TemplateRow>, now: int, today: int,
                     seeded: Option<seq<DailyTask>>): (r: LoadOutcome)
    ensures todayTasks == [] ==> r.inserted == Seed(SourceTasks(template), now, today)
    ensures todayTasks == [] && template == [] ==> |r.inserted| == |DefaultTasks| == 9
    ensures todayTasks == [] && seeded.Some? ==> r.shown == seeded.value
    ensures todayTasks == [] && seeded.None? ==> r.shown == []
    ensures todayTasks != [] ==> r.inserted == []
    ensures todayTasks != [] ==> SortedBy(r.shown, CreatedAt) && multiset(r.shown) == multiset(todayTasks)
    ensures todayTasks != [] ==> forall k :: Filter(r.shown, KeyIs(CreatedAt, k)) == Filter(todayTasks, KeyIs(CreatedAt, k))
  {
    SortByStable(todayTasks, CreatedAt);
    if todayTasks == [] then
      var seed := Seed(SourceTasks(template), now, today);
      match seeded
      case Some(rows) => LoadOutcome(seed, rows)
      case None => LoadOutcome(seed, [])
    else LoadOutcome([], SortBy(todayTasks, CreatedAt))
  }

  /** The template rows saved for the dialog's list: `sort_order` is the
      position in the list. */
  function TemplateRows(templateTasks: seq<string>): (r: seq<TemplateRow>)
    ensures |r| == |templateTasks|
    ensures forall i :: 0 <= i < |r| ==> r[i].sortOrder == i && r[i].task == templateTasks[i]
  {
    seq(|templateTasks|, i requires 0 <= i < |templateTasks| => TemplateRow(i, templateTasks[i]))
  }

  /** A saved non-empty template is read back as the same list. */
  lemma SavedTemplateRoundTrip(templateTasks: seq<string>)
    requires templateTasks != []
    ensures SourceTasks(TemplateRows(templateTasks)) == templateTasks
  {
    var rows := TemplateRows(templateTasks);
    assert SortedBy(rows, SortOrder);
    SortBySorted(rows, SortOrder);
    assert Labels(rows) == templateTasks;
  }

  // ---------------------------------------------------------------------
  // Relabelling today's tasks after the template is saved.

  /** `templateTasks[idx] ?? t.task`. */
  function LabelFor(templateTasks: seq<string>, idx: nat, t: DailyTask): string {
    if idx < |templateTasks| then templateTasks[idx] else t.task
  }

  /** A row is relabelled only when it is not completed and its new label is
      non-empty and differs from its current one. */
  predicate NeedsRelabel(t: DailyTask, newLabel: string) {
    !t.isCompleted && newLabel != "" && newLabel != t.task
  }

  /** An `updateById` of a row's `task` text. */
  datatype Relabel = Relabel(id: Id, task: string)

  /** The relabel writes for the first `n` rows of `ordered`, in row order. */
  function RelabelWrites(ordered: seq<DailyTask>, templateTasks: seq<string>, n: nat): (r: seq<Relabel>)
    requires n <= |ordered|
    ensures |r| <= n
    ensures forall w :: w in r <==> exists idx ::
      0 <= idx < n && NeedsRelabel(ordered[idx], LabelFor(templateTasks, idx, ordered[idx]))
      && w == Relabel(ordered[idx].id, LabelFor(templateTasks, idx, ordered[idx]))
  {
    if n == 0 then []
    else
      var t := ordered[n - 1];
      var newLabel := LabelFor(templateTasks, n - 1, t);
      RelabelWrites(ordered, templateTasks, n - 1) + (if NeedsRelabel(t, newLabel) then [Relabel(t.id, newLabel)] else [])
  }

  /** The relabelling part of `handleSaveTemplate`: today's rows in creation
      order, each paired with the template label at its position. */
  method RelabelToday(templateTasks: seq<string>, todayTasks: seq<DailyTask>)
    returns (ordered: seq<DailyTask>, writes: seq<Relabel>)
    ensures ordered == SortBy(todayTasks, CreatedAt)
    ensures SortedBy(ordered, CreatedAt) && multiset(ordered) == multiset(todayTasks)
    ensures forall k :: Filter(ordered, KeyIs(CreatedAt, k)) == Filter(todayTasks, KeyIs(CreatedAt, k))
    ensures writes == RelabelWrites(ordered, templateTasks, |ordered|)
  {
    ordered := SortBy(todayTasks, CreatedAt);
    SortByStable(todayTasks, CreatedAt);
    writes := [];
    for idx := 0 to |ordered|
      invariant writes == RelabelWrites(ordered, templateTasks, idx)
    {
      var taskRow := ordered[idx];
      var newLabel := LabelFor(templateTasks, idx, taskRow);
      if NeedsRelabel(taskRow, newLabel) {
        writes := writes + [Relabel(taskRow.id, newLabel)];
      }
    }
  }

  /** `handleSaveTemplate`: the template is replaced by the dialog's list,
      and, when asked, today's unfinished tasks are relabelled. */
  method SaveTemplate(templateTasks: seq<string>, applyToToday: bool, todayTasks: seq<DailyTask>)
    returns (rows: seq<TemplateRow>, writes: seq<Relabel>)
    ensures rows == TemplateRows(templateTasks)
    ensures !applyToToday ==> writes == []
    ensures applyToToday ==> writes == RelabelWrites(SortBy(todayTasks, CreatedAt), templateTasks, |todayTasks|)
  {
    rows := TemplateRows(templateTasks);
    writes := [];
    if applyToToday {
      var ordered;
      ordered, writes := RelabelToday(templateTasks, todayTasks);
    }
  }
}

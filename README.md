# mubz-hero dashboard logic in Dafny

This project models the arithmetic and list updates behind a personal
productivity dashboard with a gym page. It covers:

- the daily task list with its streak and "Streak Day" banner;
- the analytics card: totals, current and longest streak, weekly rate,
  daily average and monthly goal progress;
- the streak calendar and its month grid;
- monthly goals and their targets;
- the weekly thread tracker and its ISO-week reset;
- the pomodoro timer;
- the gym panels: required and optional workouts, the workout history, the
  plain workouts list and the placeholder gym streak.

A calendar day is an integer day number, with day 0 = 1970-01-01. Timestamps
are milliseconds since the epoch. "Today", the current month and year, and
every row the record store returns are inputs. Each component is one module.
Shared modules hold the parts several components use:

- `Common`: ids, `Option`, and `Math.round` / `Math.ceil` on ratios;
- `Collections`: `filter`, grouping into an insertion-ordered dictionary,
  and a stable sort;
- `Strings`: `trim`, `toString` / `padStart` and decimal reading;
- `Calendar`: Gregorian day numbers and weekdays;
- `Rows`: the stored row shapes;
- `TaskHistory`: the per-day grouping and the streak specification the task
  components share.

The code updates state in place in the pomodoro timer, the required and
optional gym panel and the achievements card, and works with loops in the
streak scans, the grouping, the calendar grid, the relabelling and the
padding of the gym and achievement lists. These are Dafny classes and
methods with loop invariants. The loop methods are proved against
specification functions, and lemmas about those functions state the
properties. The class methods state their new fields outright: for some,
such as the gym toggles and renames, these are given by a list function
with its own lemmas; for others, such as `Timer.Toggle`, `Timer.Reset`,
`Card.ToggleCompletion` and `Panel.AddOptional`, they are listed field by
field. `Panel.Valid` records which list each row belongs to: the mutators
require it and keep it. Everything else is functions and lemmas.

The model follows the code in three places where the code is narrower than
its comments and names suggest:

- The completion threshold of 9 tasks is a literal in the code. It is not a
  parameter.
- The analytics card assigns `currentStreak` only at offset 0
  (`analytics.tsx:88-91`), so it is 0 or 1. It is not the run of complete
  days ending today.
- The gym streak is a placeholder that returns 0 or 1.

## Model

| member | source | states |
|---|---|---|
| TaskHistory.CompleteIffAllCounted | components/components/dashboard/analytics.tsx:84 | a day is complete iff its completed count equals its size and is at least 9; a day with fewer than 9 rows, in particular an empty day, is never complete |
| TaskHistory.GroupByDay | components/components/dashboard/analytics.tsx:64-71 | the loop's keys are the distinct UTC creation days in first-appearance order; each day's bucket is exactly the tasks created that day, in order |
| TaskHistory.BucketsCoverTasks | components/components/dashboard/analytics.tsx:64-71 | every task is in the bucket of its own day, and the bucket sizes over all keys add up to the number of tasks |
| TaskHistory.CountComplete | components/components/dashboard/analytics.tsx:116-119 | the number of complete days among the first n offsets is at most n |
| TaskHistory.Run | components/components/dashboard/analytics.tsx:86-94 | the value of `tempStreak` after offset i is at most i + 1 |
| TaskHistory.MaxRun | components/components/dashboard/analytics.tsx:91 | the running maximum of `tempStreak` over n offsets is at most n |
| TaskHistory.RunIsMaximalBlock | components/components/dashboard/analytics.tsx:86-94 | after offset n-1, `tempStreak` complete days end there, and no longer block of complete days ends there (so an incomplete day resets it to 0) |
| TaskHistory.MaxRunAtLeastRun | components/components/dashboard/analytics.tsx:91 | `longestStreak` is never below any value `tempStreak` took |
| TaskHistory.MaxRunIsLongestBlock | components/components/dashboard/analytics.tsx:78-95 | some block of consecutive complete days in the window has length MaxRun, and no block is longer |
| TaskHistory.LeadingRunAtMostLongest | components/components/dashboard/daily-tasks.tsx:126-139 | a run of complete days starting today is no longer than the longest block in the window |
| TaskHistory.LeadingRunAtMostCount | components/components/dashboard/streak-calendar.tsx:57-74 | a run of complete days starting today is no longer than the number of complete days in the window |
| TaskHistory.CountCompleteMonotone | components/components/dashboard/streak-calendar.tsx:57-74 | a longer window holds at least as many complete days |
| TaskHistory.CountCompleteAll | components/components/dashboard/analytics.tsx:116-121 | all n days are counted iff every one of them is complete |
| TaskHistory.CountCompleteNone | components/components/dashboard/analytics.tsx:116-121 | none is counted iff no day is complete |
| Analytics.ScanStreaks | components/components/dashboard/analytics.tsx:73-95 | `currentStreak` is 1 iff today is complete and 0 otherwise; `longestStreak` is the length of the longest block of consecutive complete days among the 365 ending today (attained and never exceeded); current <= longest <= 365 |
| Analytics.TotalTasksCompleted | components/components/dashboard/analytics.tsx:60 | the completed count is at most the number of tasks, equals it iff all are completed, and is 0 iff none is |
| Analytics.CurrentMonthTargets | components/components/dashboard/analytics.tsx:98-103 | a target is kept iff it is stored and some goal of this month and year has its `goal_id` |
| Analytics.MonthlyGoalProgress | components/components/dashboard/analytics.tsx:104-107 | for a month with targets, `RoundPercent(completed, total)` over this month's targets, i.e. the integer nearest to 100·completed/total with halves rounded up; 0 when this month has no targets; at most 100; 100 when all are done; 0 when none is |
| Analytics.WeeklyRate | components/components/dashboard/analytics.tsx:110-121 | the nearest whole percentage to 100·c/7 for the c complete days among the seven ending today; 100 iff all seven are complete; 0 iff none is |
| Analytics.DailyAverage | components/components/dashboard/analytics.tsx:123-132 | with n dates of which c are complete, r satisfies 2n·r <= 200c + n < 2n·(r+1), the round-half-up value of 100·c/n; 0 without dates; at most 100; 100 when every date is complete; 0 when none is; for fewer than 200 dates, 100 iff all are complete |
| Analytics.LoadAnalytics | components/components/dashboard/analytics.tsx:59-132 | each field of the card is the quantity specified above, computed on the grouped history of the fetched tasks |
| DailyTasks.LeadingStreak | components/components/dashboard/daily-tasks.tsx:123-139 | the streak counts the complete days from today back to the first incomplete one (at most 365): all of them are complete, the next one is not, no longer leading run exists, and it is at most the window's complete-day count and its longest block |
| DailyTasks.LoadStreak | components/components/dashboard/daily-tasks.tsx:110-142 | the history groups every fetched task by creation day, and the streak is the leading run of complete days |
| DailyTasks.ShowsStreakBanner | components/components/dashboard/daily-tasks.tsx:175-176 | the banner shows iff the listed tasks form a complete day |
| DailyTasks.ToggleCompletion | components/components/dashboard/daily-tasks.tsx:144-160 | only the task at the index is flipped and written; a missing index changes and writes nothing; a completion record is asked for iff the index exists and every task of the updated list is done |
| DailyTasks.RecordWithoutBanner | components/components/dashboard/daily-tasks.tsx:155-176 | the completion record does not check the 9-task threshold: completing a one-task list asks for a record but shows no banner |
| DailyTasks.Labels | components/components/dashboard/daily-tasks.tsx:79 | one label per template row, in row order |
| DailyTasks.SourceTasks | components/components/dashboard/daily-tasks.tsx:78-79 | the defaults when there is no template; otherwise the labels of a permutation of the template sorted by `sort_order`, in which rows with equal `sort_order` keep their stored order |
| DailyTasks.Seed | components/components/dashboard/daily-tasks.tsx:81-87 | one incomplete row per label, in label order, created now and dated today |
| DailyTasks.LoadTasks | components/components/dashboard/daily-tasks.tsx:54-108 | with no rows today the source labels are seeded (9 defaults without a template) and the seeded rows are shown; otherwise nothing is inserted and today's rows are shown sorted by creation time, as a permutation in which rows with equal `created_at` keep their fetched order |
| DailyTasks.TemplateRows | components/components/dashboard/daily-tasks.tsx:206 | row i of the saved template has `sort_order` i and the i-th label |
| DailyTasks.SavedTemplateRoundTrip | components/components/dashboard/daily-tasks.tsx:185-206 | a saved non-empty template reads back as the same label list |
| DailyTasks.RelabelWrites | components/components/dashboard/daily-tasks.tsx:226-232 | a relabel write exists exactly for each row that is not completed and whose label at its position is non-empty and different from the current one |
| DailyTasks.RelabelToday | components/components/dashboard/daily-tasks.tsx:225-232 | today's rows are sorted by creation time: a sorted permutation in which rows with equal `created_at` keep their fetched order; the loop emits exactly the relabel writes above, in row order |
| Collections.SortByStable | components/components/dashboard/daily-tasks.tsx:225 | the sort is stable: for every key value, the elements with that key appear in the sorted list in the same order, and as often, as in the input |
| DailyTasks.SaveTemplate | components/components/dashboard/daily-tasks.tsx:200-237 | the template rows are replaced by the dialog's list; relabel writes happen only when applying to today |
| StreakCalendar.ScanCompletedDays | components/components/dashboard/streak-calendar.tsx:50-74 | the set holds exactly the complete days of the 365 ending today; the streak is 0 when today is incomplete, and otherwise counts every complete day of the window, gaps included |
| StreakCalendar.LoadCompletedDays | components/components/dashboard/streak-calendar.tsx:37-78 | the same, on the grouped history of all fetched tasks |
| StreakCalendar.StreakCountsPastGaps | components/components/dashboard/streak-calendar.tsx:65-69 | with today and the day before yesterday complete and yesterday not, the streak is at least 2 |
| StreakCalendar.WeekdayOffset | components/components/dashboard/streak-calendar.tsx:86-92 | the cell at i places after the start of the first week falls on weekday i mod 7 |
| StreakCalendar.MonthGrid | components/components/dashboard/streak-calendar.tsx:80-119 | the grid has one filler cell per weekday before the 1st, then one cell per day of the month; cell i is day first-start+i on weekday i mod 7; filler cells are not completed, not today and not in the month; month cells carry their completion and are today iff their date is today; at most one cell is today |
| StreakCalendar.MonthCellsSpanMonth | components/components/dashboard/streak-calendar.tsx:83-85 | the month cells end the day before the first of the next month |
| Calendar.DaysInMonth | components/components/dashboard/streak-calendar.tsx:84-85 | between 28 and 31; 29 iff February of a leap year; 28 iff February of another year |
| Calendar.Weekday | components/components/dashboard/streak-calendar.tsx:86 | a weekday index in 0..6 (Sunday = 0) |
| MonthlyGoals.GetProgress | components/components/dashboard/monthly-goals.tsx:141-145 | 0 without targets, at most 100, the nearest whole percentage of completed targets, 100 when all are done and 0 when none is (iff, for fewer than 200 targets) |
| MonthlyGoals.TargetsOf | components/components/dashboard/monthly-goals.tsx:56 | exactly the stored targets whose `goal_id` is the goal's id, each as often as it is stored |
| MonthlyGoals.TargetsOfSingle | components/components/dashboard/monthly-goals.tsx:56 | a single stored target is kept iff it names the goal; with TargetList.TargetsOfAppend this yields the stored order |
| MonthlyGoals.GoalsWithTargets | components/components/dashboard/monthly-goals.tsx:54-57 | one entry per goal in stored order; entry i holds `TargetsOf` the i-th goal, that is the targets naming it, in stored order and multiplicity |
| MonthlyGoals.TargetsToCreate | components/components/dashboard/monthly-goals.tsx:78-85 | one incomplete target of the new goal per filled-in entry, in entry order, with trimmed non-empty text |
| MonthlyGoals.AddGoal | components/components/dashboard/monthly-goals.tsx:62-103 | a goal is inserted iff the primary focus is not blank, with the trimmed focus, month `getMonth()+1` and the year; only when the store returns its id are the targets inserted and the form reset to three empty entries; otherwise the form is kept |
| MonthlyGoals.SetCompleted | components/components/dashboard/monthly-goals.tsx:106-109 | the upsert sets `is_completed` on the rows with the id and leaves the others as they are |
| MonthlyGoals.ToggleTarget | components/components/dashboard/monthly-goals.tsx:105-111 | the row with the id gets the negation of the shown state; the others are unchanged |
| MonthlyGoals.ToggleTargetTwice | components/components/dashboard/monthly-goals.tsx:105-111 | when the box shows the stored state, two clicks restore the stored targets |
| MonthlyGoals.UpdateTarget | components/components/dashboard/monthly-goals.tsx:133-139 | the row with the id gets the trimmed text; the others are unchanged |
| WeeklyThreadTracker.IsoWeekday | components/components/dashboard/weekly-thread-tracker.tsx:89 | `getUTCDay() \|\| 7`: in 1..7 and congruent to the weekday mod 7 |
| WeeklyThreadTracker.WeekThursday | components/components/dashboard/weekly-thread-tracker.tsx:90 | the Thursday of the day's Monday-to-Sunday week, within three days of it |
| WeeklyThreadTracker.IsoWeek | components/components/dashboard/weekly-thread-tracker.tsx:87-93 | the week number is in 1..53 |
| WeeklyThreadTracker.WeekSharesNumber | components/components/dashboard/weekly-thread-tracker.tsx:87-93 | all seven days from a Monday have the same week number |
| WeeklyThreadTracker.FourthOfJanuaryInWeekOne | components/components/dashboard/weekly-thread-tracker.tsx:87-93 | 4 January is always in week 1 |
| WeeklyThreadTracker.WeekOfDay | components/components/dashboard/weekly-thread-tracker.tsx:87-93 | the week number of a Wednesday is the number of its Thursday's week counted from 1 January |
| WeeklyThreadTracker.Find | components/components/dashboard/weekly-thread-tracker.tsx:46 | none iff no row has the weekday; otherwise the first row that has it |
| WeeklyThreadTracker.DayRow | components/components/dashboard/weekly-thread-tracker.tsx:45-56 | the stored row for the weekday, or a fresh incomplete row created and updated today |
| WeeklyThreadTracker.Normalize | components/components/dashboard/weekly-thread-tracker.tsx:45-57 | exactly seven rows, row i for weekday i |
| WeeklyThreadTracker.ResetDay | components/components/dashboard/weekly-thread-tracker.tsx:63-69 | a completed row last updated in another week number is made incomplete and stamped today; any other row is kept |
| WeeklyThreadTracker.ResetWrites | components/components/dashboard/weekly-thread-tracker.tsx:63-67 | the upserts of the week check: a row is written iff it is the reset of a completed row last updated in another week number; every written row is incomplete and stamped today |
| WeeklyThreadTracker.ResetWeek | components/components/dashboard/weekly-thread-tracker.tsx:59-71 | ids and weekdays are kept, and every row still completed was updated in the current week number |
| WeeklyThreadTracker.ResetIgnoresYear | components/components/dashboard/weekly-thread-tracker.tsx:63-64 | the reset compares week numbers only: a day ticked in week 2 of 2024 is still ticked in week 2 of 2025 |
| WeeklyThreadTracker.Load | components/components/dashboard/weekly-thread-tracker.tsx:43-72 | seven rows, row i the reset of weekday i's row; completed rows belong to the current week number |
| WeeklyThreadTracker.RotateFromToday | components/components/dashboard/weekly-thread-tracker.tsx:34-39 | a permutation of the rows; for a full week it starts at today's weekday and wraps round |
| WeeklyThreadTracker.RotationFacts | components/components/dashboard/weekly-thread-tracker.tsx:34-39 | the sorted rows' rotation is a permutation, and for a full week entry j is weekday (today + j) mod 7 |
| WeeklyThreadTracker.RotationPermutes | components/components/dashboard/weekly-thread-tracker.tsx:36-38 | `[...after, ...before]` is a permutation of the sorted rows |
| WeeklyThreadTracker.RotateWeekList | components/components/dashboard/weekly-thread-tracker.tsx:36-38 | on a full week, entry j of the rotation is row (k + j) mod 7 |
| WeeklyThreadTracker.WeekListSorted | components/components/dashboard/weekly-thread-tracker.tsx:35 | a full week is already sorted by weekday |
| WeeklyThreadTracker.ToggledDay | components/components/dashboard/weekly-thread-tracker.tsx:79 | completion flipped, stamped today, identity kept |
| WeeklyThreadTracker.ToggleDay | components/components/dashboard/weekly-thread-tracker.tsx:77-85 | the rows with the toggled weekday become the toggled day; the others are unchanged; a full week stays a full week |
| WeeklyThreadTracker.ToggleDayTwice | components/components/dashboard/weekly-thread-tracker.tsx:77-85 | toggling a day twice restores its completion |
| PomodoroTimer.TwoDigits | components/components/dashboard/pomodoro-timer.tsx:95-97 | all digits, at least two, exactly two below 100, and reads back as the number |
| PomodoroTimer.FormatTime | components/components/dashboard/pomodoro-timer.tsx:92-98 | two-digit minutes, a colon, two-digit seconds; exactly 5 characters below 6000 seconds |
| PomodoroTimer.ParseFormatTime | components/components/dashboard/pomodoro-timer.tsx:92-98 | reading the display back gives minutes·60 + seconds = the input |
| PomodoroTimer.ParseJoined | components/components/dashboard/pomodoro-timer.tsx:95-97 | a digit field, a colon and a field are read as those two fields |
| PomodoroTimer.FocusTimeToSave | components/components/dashboard/pomodoro-timer.tsx:31 | the stored focus time (null as 0) plus the increment |
| PomodoroTimer.FocusTimeWrite | components/components/dashboard/pomodoro-timer.tsx:28-37 | no save before the settings are loaded; otherwise the settings with the new total |
| PomodoroTimer.Timer.constructor | components/components/dashboard/pomodoro-timer.tsx:25-26 | starts at 25·60 = 1500 seconds, inactive |
| PomodoroTimer.Timer.Toggle | components/components/dashboard/pomodoro-timer.tsx:83-85 | flips `isActive`, time unchanged |
| PomodoroTimer.Timer.Reset | components/components/dashboard/pomodoro-timer.tsx:87-90 | back to 1500 seconds, inactive |
| PomodoroTimer.Timer.Tick | components/components/dashboard/pomodoro-timer.tsx:64-81 | while active with time left it loses exactly one second and saves one second of focus time; at 0 it stops and reports the end; otherwise nothing changes; time stays in 0..1500 |
| GymStreak.Midnight | components/components/gym/streak-tracker.tsx:22-23 | the start of the instant's day |
| GymStreak.DiffDays | components/components/gym/streak-tracker.tsx:25-26 | the ceiling of the midnight difference is the difference of the day numbers |
| GymStreak.CalculateStreak | components/components/gym/streak-tracker.tsx:13-41 | 0 or 1; 0 without a date; 1 iff the last day is today or yesterday; 0 for older or future dates |
| GymStreak.SameDayStreak | components/components/gym/streak-tracker.tsx:28-33 | a workout on the same day gives 1 whatever the times of day |
| GymWorkouts.RequiredOf | components/components/gym/gym-workouts.tsx:42 | the first min(9, count) required rows in fetched order |
| GymWorkouts.BlankRows | components/components/gym/gym-workouts.tsx:46-57 | one blank, required, incomplete row per fresh id |
| GymWorkouts.RequiredOptionalPartition | components/components/gym/gym-workouts.tsx:42-43 | required and optional rows are disjoint and together make up the fetched rows |
| GymWorkouts.ToggledAt | components/components/gym/gym-workouts.tsx:72-73 | only the element at the index changes, and only its completion, which flips |
| GymWorkouts.ToggledAtTwice | components/components/gym/gym-workouts.tsx:72-73 | toggling the same index twice restores the list |
| GymWorkouts.RenamedAt | components/components/gym/gym-workouts.tsx:100-101 | only the element at the index changes, and only its name |
| GymWorkouts.AllRequiredCompleted | components/components/gym/gym-workouts.tsx:135-136 | true only with at least nine workouts; with nine, true iff all are completed |
| GymWorkouts.Panel.constructor | components/components/gym/gym-workouts.tsx:25-26 | both lists start empty |
| GymWorkouts.Panel.Load | components/components/gym/gym-workouts.tsx:36-61 | exactly nine required rows: the first fetched required ones, then blank rows; optional is every non-required fetched row |
| GymWorkouts.Panel.ToggleRequired | components/components/gym/gym-workouts.tsx:63-75 | flips only that required workout, writes its new state, leaves the optional list untouched |
| GymWorkouts.Panel.ToggleOptional | components/components/gym/gym-workouts.tsx:77-89 | flips only that optional workout, writes its new state, leaves the required list untouched |
| GymWorkouts.Panel.UpdateRequired | components/components/gym/gym-workouts.tsx:91-103 | renames only that required workout to the trimmed name and writes it |
| GymWorkouts.Panel.UpdateOptional | components/components/gym/gym-workouts.tsx:105-117 | renames only that optional workout to the trimmed name and writes it |
| GymWorkouts.Panel.AddOptional | components/components/gym/gym-workouts.tsx:119-133 | appends exactly one non-required, incomplete "New optional workout" row when the store returns it |
| WorkoutHistory.Completed | components/components/gym/workout-history.tsx:34 | exactly the completed rows |
| WorkoutHistory.Tally | components/components/gym/workout-history.tsx:33-47 | positive iff some completed row has that month and name |
| WorkoutHistory.BumpTallies | components/components/gym/workout-history.tsx:40-46 | one create-if-missing-then-increment step keeps the map equal to the tallies of the rows seen |
| WorkoutHistory.Aggregate | components/components/gym/workout-history.tsx:30-48 | `aggregated[m][w]` is the number of completed rows with month m and name w, and at least 1; a (month, name) pair is present iff such a row exists; no month is empty |
| WorkoutHistory.TalliesSum | components/components/gym/workout-history.tsx:33-48 | the tallies over the distinct pairs add up to the number of completed rows, and the pairs are exactly those with a positive tally |
| DailyAchievements.BlankAchievements | components/components/dashboard/daily-achievements.tsx:40-49 | one blank achievement per fresh id |
| DailyAchievements.Toggled | components/components/dashboard/daily-achievements.tsx:54-64 | the id is in the new set iff it was not before; other ids are unchanged |
| DailyAchievements.ToggledTwice | components/components/dashboard/daily-achievements.tsx:54-64 | toggling the same id twice restores the set |
| DailyAchievements.UpdatedAt | components/components/dashboard/daily-achievements.tsx:66-80 | the slot at the index gets the trimmed text; other slots are unchanged; a missing index changes nothing |
| DailyAchievements.Card.constructor | components/components/dashboard/daily-achievements.tsx:24-26 | no achievements, nothing ticked |
| DailyAchievements.Card.Load | components/components/dashboard/daily-achievements.tsx:34-52 | exactly three slots: the first three fetched rows, padded with blank rows |
| DailyAchievements.Card.ToggleCompletion | components/components/dashboard/daily-achievements.tsx:54-64 | the ticked set is toggled at the id; the slots are unchanged |
| DailyAchievements.Card.UpdateAchievement | components/components/dashboard/daily-achievements.tsx:66-80 | the slot gets the trimmed text and is written iff the index exists |
| TargetList.TargetsOfAppend | components/components/dashboard/target-list.tsx:29-31 | filtering by goal keeps stored order |
| TargetList.AddTarget | components/components/dashboard/target-list.tsx:38-50 | an insert happens iff the trimmed text is non-empty; only when the store returns the row is it appended at the end and the input cleared |
| TargetList.Flipped | components/components/dashboard/target-list.tsx:54-55 | the row that the toggle both upserts and shows: only the completion changes, and it flips |
| TargetList.ToggleTarget | components/components/dashboard/target-list.tsx:52-60 | entries with the id become the flipped target; the others and the length are unchanged |
| TargetList.ToggleTargetTwice | components/components/dashboard/target-list.tsx:52-60 | toggling the shown entry and then its result restores the list |
| TargetList.DeleteTarget | components/components/dashboard/target-list.tsx:62-66 | no entry with the id remains, every other entry does |
| TargetList.DeleteTargetAppend | components/components/dashboard/target-list.tsx:62-66 | deleting keeps order (it distributes over concatenation) |
| TargetList.DeleteAfterToggle | components/components/dashboard/target-list.tsx:52-66 | deleting after a toggle equals deleting |
| WorkoutsList.AddWorkout | components/components/gym/workouts-list.tsx:35-48 | an insert happens iff the trimmed name is non-empty, with the name and reps trimmed; only when the store returns the row is it appended and both inputs cleared |
| WorkoutsList.Flipped | components/components/gym/workouts-list.tsx:52-53 | the row that the toggle both upserts and shows: only the completion changes, and it flips |
| WorkoutsList.ToggleWorkout | components/components/gym/workouts-list.tsx:50-58 | entries with the id become the flipped workout; the others and the length are unchanged |
| WorkoutsList.ToggleWorkoutTwice | components/components/gym/workouts-list.tsx:50-58 | toggling the shown entry and then its result restores the list |
| WorkoutsList.DeleteWorkout | components/components/gym/workouts-list.tsx:60-65 | no entry with the id remains, every other entry does |
| WorkoutsList.DeleteWorkoutAppend | components/components/gym/workouts-list.tsx:60-65 | deleting keeps order (it distributes over concatenation) |
| WorkoutsList.DeleteAfterAdd | components/components/gym/workouts-list.tsx:35-65 | deleting a just-added row by its id gives the old list with that id deleted |

## Left out

- Time zones and `Date`: days are plain day numbers. Left out are the UTC+1 shift of the streak calendar (`streak-calendar.tsx:54`, `:106`), the local-versus-UTC split of the month grid's `toISOString` dates (the model uses the local date), DST effects on `Math.ceil` in the gym streak, `setMonth` overflow in `navigateMonth`, and the `toLocaleString` month label, which is an input string.
- The record store: every fetch result is an input. Store errors are not modelled; an insert that returns no row is. A padding insert is assumed to return a row whose id is the next of a `freshIds` input, because the source's padding loops (`gym-workouts.tsx:46`, `daily-achievements.tsx:40`) never end otherwise. `crypto.randomUUID` is likewise a `freshIds` input.
- DailyTasks.Seed: every seeded row has the same `created_at`, the `now` input, while the source calls `new Date()` once per row; the stable sort keeps seeded rows with equal times in insertion order.
- WorkoutHistory.Aggregate: workout names and month labels are assumed not to be `Object.prototype` keys such as `constructor`, `toString` or `__proto__`. For those names the plain `{}` of the source finds an inherited member, skips the `= 0` initialisation and produces a string or drops the count, while the model counts normally.
- TargetList.ToggleTarget, WorkoutsList.ToggleWorkout and WeeklyThreadTracker.ToggleDay return the new list only; the row they upsert is the `Flipped` / `ToggledDay` row they put in it. The reset upserts of the week check are WeeklyThreadTracker.ResetWrites; `Load` does not return them.
- Store inserts: `insertData` (`lib/data-service.ts:74`) calls `insert` without `.select()`, so the store may answer every insert with no rows, and the branches that use a returned row (`gym-workouts.tsx:53`, `:129`, `target-list.tsx:40`, `workouts-list.tsx:37`, `monthly-goals.tsx:72`) may never run. The model takes the returned row as an `Option` input and covers both outcomes; which one the store gives is not modelled, and the padding loops above assume rows do come back.
- DailyTasks.LoadTasks: the early return on a query or insert error is not modelled; a failed seed shows no rows.
- React state, `async` ordering, the debounce and `setInterval` of the pomodoro timer, `alert` and the sign-in checks: each handler is one step, with the user signed in.
- PomodoroTimer.Timer.Tick: the settings are the ones loaded at start. Because the source never refreshes them, each save writes the loaded total plus one second; the model states exactly that.
- GymWorkouts.Panel.ToggleRequired, ToggleOptional, UpdateRequired, UpdateOptional: these require an existing index, since the source reads the row's id and fails on a missing one.
- `handleOpenEdit` of the daily tasks computes the same list as DailyTasks.SourceTasks. `handleTemplateChange` is a plain index assignment, and `recordDailyCompletion` is a store write plus a reload; the model keeps only the `record` flag.
- `handleUpdateGoal` and `handleAddTarget` of the monthly goals: each is one store write of a constant or caller-given payload followed by a reload.
- `trim` white space is the ECMAScript set of white-space and line-terminator code points. Strings are sequences of Unicode scalar values: lone surrogates and the UTF-16 length of characters outside the Basic Multilingual Plane are not modelled.
- `Math.round` on a ratio is integer round-half-up, with no IEEE doubles.

/** Rows of the record store's tables, with the fields the dashboard logic
    reads or writes. `user_id` is left out: every query is already scoped to
    one user. Timestamps are milliseconds since 1970-01-01T00:00:00Z; dates
    the components compare by calendar day are day numbers (see Calendar). */
module Rows {
  import opened Common

  /** `daily_tasks`: one task of one day. `taskDate` is the day number of
      its `task_date` column. */
  datatype DailyTask = DailyTask(id: Id, task: string, isCompleted: bool, createdAt: int, taskDate: int)

  /** `new Date(t.created_at).toISOString().split('T')[0]`: the UTC calendar
      day of the creation time, as a day number (floor division, so this
      holds before 1970 too). */
  function CreatedDay(t: DailyTask): int {
    t.createdAt / 86400000
  }

  function CreatedAt(t: DailyTask): int {
    t.createdAt
  }

  /** `user_daily_task_templates`: one label of the user's daily template. */
  datatype TemplateRow = TemplateRow(sortOrder: int, task: string)

  function SortOrder(r: TemplateRow): int {
    r.sortOrder
  }

  /** `daily_achievements`. */
  datatype DailyAchievement = DailyAchievement(id: Id, achievement: string)

  /** `thread_days`: one weekday of the weekly thread tracker; `updatedAt`
      is the local calendar day of its `updated_at` timestamp. */
  datatype ThreadDay = ThreadDay(id: Id, dayOfWeek: int, isCompleted: bool, createdAt: int, updatedAt: int)

  function DayOfWeek(d: ThreadDay): int {
    d.dayOfWeek
  }

  /** `monthly_goals`: `month` is 1..12. */
  datatype MonthlyGoal = MonthlyGoal(id: Id, goal: string, month: int, year: int)

  /** `monthly_goal_targets`. */
  datatype MonthlyGoalTarget = MonthlyGoalTarget(id: Id, goalId: Id, target: string, isCompleted: bool)

  /** `gym_workouts`: `createdMonth` stands for the month label
      (`toLocaleString` with month and year) of its `created_at`. */
  datatype GymWorkout = GymWorkout(
    id: Id, workout: string, reps: Option<string>, isRequired: bool, isCompleted: bool, createdMonth: string)
}

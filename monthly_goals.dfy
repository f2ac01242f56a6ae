/** The monthly goals card: goals joined with their targets, the progress
    percentage of a goal, creating a goal with its targets from the form, and
    the writes behind the target check boxes. Store writes are returned as
    values; the rows read back are inputs. */
module MonthlyGoals {
  import opened Common
  import opened Collections
  import opened Strings
  import opened Rows

  function IsTargetCompleted(t: MonthlyGoalTarget): bool {
    t.isCompleted
  }

  /** `getProgress`: the share of completed targets as a whole percentage,
      0 for a goal without targets. */
  function GetProgress(targets: seq<MonthlyGoalTarget>): (r: nat)
    ensures targets == [] ==> r == 0
    ensures r <= 100
    ensures targets != [] ==> var done, n := Count(targets, IsTargetCompleted), |targets|;
      2 * n * r <= 200 * done + n < 2 * n * (r + 1)
    ensures targets != [] && (forall i :: 0 <= i < |targets| ==> targets[i].isCompleted) ==> r == 100
    ensures (forall i :: 0 <= i < |targets| ==> !targets[i].isCompleted) ==> r == 0
    ensures 0 < |targets| < 200 ==> (r == 100 <==> forall i :: 0 <= i < |targets| ==> targets[i].isCompleted)
    ensures 0 < |targets| <= 200 ==> (r == 0 <==> forall i :: 0 <= i < |targets| ==> !targets[i].isCompleted)
  {
    if |targets| == 0 then 0
    else
      CountAll(targets, IsTargetCompleted);
      CountNone(targets, IsTargetCompleted);
      RoundPercent(Count(targets, IsTargetCompleted), |targets|)
  }

  function HasGoal(goalId: Id): MonthlyGoalTarget -> bool {
    (t: MonthlyGoalTarget) => t.goalId == goalId
  }

  /** The targets of one goal, in stored order; each target of the goal is
      kept as often as it is stored. */
  function TargetsOf(targets: seq<MonthlyGoalTarget>, goalId: Id): (r: seq<MonthlyGoalTarget>)
    ensures forall t :: t in r <==> t in targets && t.goalId == goalId
    ensures forall i :: 0 <= i < |r| ==> r[i].goalId == goalId
    ensures forall t :: multiset(r)[t] == if t.goalId == goalId then multiset(targets)[t] else 0
  {
    forall t ensures multiset(Filter(targets, HasGoal(goalId)))[t] == if t.goalId == goalId then multiset(targets)[t] else 0 {
      FilterMultiplicity(targets, HasGoal(goalId), t);
    }
    Filter(targets, HasGoal(goalId))
  }

  /** The filter looks at one row at a time: a single stored target is kept
      exactly when it names the goal. Together with `TargetsOfAppend` this
      fixes the order of a goal's targets as the stored order. */
  lemma TargetsOfSingle(t: MonthlyGoalTarget, goalId: Id)
    ensures TargetsOf([t], goalId) == if t.goalId == goalId then [t] else []
  {
    assert [t][1..] == [];
  }

  /** A goal as the card shows it: the stored row with its targets. */
  datatype GoalWithTargets = GoalWithTargets(goal: MonthlyGoal, targets: seq<MonthlyGoalTarget>)

  /** The join of `loadGoals`: one entry per goal, in stored order, each
      holding exactly the targets that name that goal. */
  function GoalsWithTargets(goals: seq<MonthlyGoal>, targets: seq<MonthlyGoalTarget>): (r: seq<GoalWithTargets>)
    ensures |r| == |goals|
    ensures forall i :: 0 <= i < |r| ==> r[i].goal == goals[i]
    ensures forall i :: 0 <= i < |r| ==> r[i].targets == TargetsOf(targets, goals[i].id)
    ensures forall i, t :: 0 <= i < |r| ==> (t in r[i].targets <==> t in targets && t.goalId == goals[i].id)
    decreases |goals|
  {
    if goals == [] then []
    else [GoalWithTargets(goals[0], TargetsOf(targets, goals[0].id))] + GoalsWithTargets(goals[1..], targets)
  }

  // ---------------------------------------------------------------------
  // The new-goal form.

  /** `newGoal`: primary focus, key resources and the target entries. */
  datatype GoalForm = GoalForm(primaryFocus: string, keyResources: string, targets: seq<string>)

  /** The form as first shown and as reset after a goal is saved: empty
      fields and three empty target slots. */
  const EmptyForm := GoalForm("", "", ["", "", ""])

  /** The `monthly_goals` row inserted for a new goal. */
  datatype GoalInsert = GoalInsert(goal: string, month: int, year: int)

  /** A `monthly_goal_targets` row to insert. */
  datatype TargetInsert = TargetInsert(goalId: Id, target: string, isCompleted: bool)

  predicate IsFilled(entry: string) {
    !IsBlank(entry)
  }

  /** `targets.filter(t => t.trim() !== '').map(...)`: one incomplete target of
      the new goal per filled-in entry, in entry order, with its text trimmed. */
  function TargetsToCreate(entries: seq<string>, goalId: Id): (r: seq<TargetInsert>)
    ensures var kept := Filter(entries, IsFilled);
      |r| == |kept| && forall i :: 0 <= i < |r| ==> r[i] == TargetInsert(goalId, Trim(kept[i]), false)
    ensures forall i :: 0 <= i < |r| ==> r[i].target != [] && r[i].goalId == goalId && !r[i].isCompleted
    decreases |entries|
  {
    if entries == [] then []
    else
      var rest := TargetsToCreate(entries[1..], goalId);
      if IsFilled(entries[0]) then [TargetInsert(goalId, Trim(entries[0]), false)] + rest else rest
  }

  /** What `handleAddGoal` writes and which form it leaves behind. */
  datatype AddGoalOutcome = AddGoalOutcome(goal: Option<GoalInsert>, targets: seq<TargetInsert>, form: GoalForm)

  /** `handleAddGoal` with the current month `monthIndex` (0-based, as
      `getMonth` returns it) and year. `insertedId` is the id of the goal row
      the store returns, if any. */
  function AddGoal(form: GoalForm, monthIndex: int, year: int, insertedId: Option<Id>): (r: AddGoalOutcome)
    requires 0 <= monthIndex < 12
    ensures r.goal.Some? <==> !IsBlank(form.primaryFocus)
    ensures r.goal.Some? ==> r.goal.value.goal == Trim(form.primaryFocus) && r.goal.value.goal != []
    ensures r.goal.Some? ==> r.goal.value.month == monthIndex + 1 && 1 <= r.goal.value.month <= 12
    ensures r.goal.Some? ==> r.goal.value.year == year
    ensures r.goal.Some? && insertedId.Some? ==> r.targets == TargetsToCreate(form.targets, insertedId.value)
    ensures r.goal.Some? && insertedId.Some? ==> r.form == EmptyForm
    ensures !(r.goal.Some? && insertedId.Some?) ==> r.targets == [] && r.form == form
    ensures forall t :: t in r.targets ==> insertedId.Some? && t.goalId == insertedId.value
  {
    if IsBlank(form.primaryFocus) then AddGoalOutcome(None, [], form)
    else
      var goal := GoalInsert(Trim(form.primaryFocus), monthIndex + 1, year);
      match insertedId
      case None => AddGoalOutcome(Some(goal), [], form)
      case Some(id) => AddGoalOutcome(Some(goal), TargetsToCreate(form.targets, id), EmptyForm)
  }

  // ---------------------------------------------------------------------
  // Writes to stored targets.

  /** The store after an upsert of `is_completed` on the row with this id. */
  function SetCompleted(targets: seq<MonthlyGoalTarget>, id: Id, value: bool): (r: seq<MonthlyGoalTarget>)
    ensures |r| == |targets|
    ensures forall i :: 0 <= i < |r| ==> r[i] == if targets[i].id == id then targets[i].(isCompleted := value) else targets[i]
    decreases |targets|
  {
    if targets == [] then []
    else
      var head := if targets[0].id == id then targets[0].(isCompleted := value) else targets[0];
      [head] + SetCompleted(targets[1..], id, value)
  }

  /** `handleToggleTarget(id, completed)`: writes the negation of the state the
      check box showed. */
  function ToggleTarget(targets: seq<MonthlyGoalTarget>, id: Id, completed: bool): (r: seq<MonthlyGoalTarget>)
    ensures |r| == |targets|
    ensures forall i :: 0 <= i < |r| && targets[i].id == id ==> r[i].isCompleted == !completed
    ensures forall i :: 0 <= i < |r| && targets[i].id != id ==> r[i] == targets[i]
  {
    SetCompleted(targets, id, !completed)
  }

  /** When the check box shows the stored state, clicking it twice gives back
      the stored targets. */
  lemma ToggleTargetTwice(targets: seq<MonthlyGoalTarget>, id: Id, completed: bool)
    requires forall i :: 0 <= i < |targets| && targets[i].id == id ==> targets[i].isCompleted == completed
    ensures ToggleTarget(ToggleTarget(targets, id, completed), id, !completed) == targets
  {
    var once := ToggleTarget(targets, id, completed);
    var twice := ToggleTarget(once, id, !completed);
    assert forall i :: 0 <= i < |targets| ==> twice[i] == targets[i];
  }

  /** `handleUpdateTarget`: the stored text becomes the trimmed input. */
  function UpdateTarget(targets: seq<MonthlyGoalTarget>, id: Id, text: string): (r: seq<MonthlyGoalTarget>)
    ensures |r| == |targets|
    ensures forall i :: 0 <= i < |r| ==> r[i] == if targets[i].id == id then targets[i].(target := Trim(text)) else targets[i]
    decreases |targets|
  {
    if targets == [] then []
    else
      var head := if targets[0].id == id then targets[0].(target := Trim(text)) else targets[0];
      [head] + UpdateTarget(targets[1..], id, text)
  }
}

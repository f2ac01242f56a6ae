/** The target list under one goal: the goal's targets, adding one,
    ticking one off and removing one from the page. */
module TargetList {
  import opened Common
  import opened Collections
  import opened Strings
  import opened Rows
  import opened MonthlyGoals

  /** Filtering by goal keeps stored order: the targets of two stretches of
      rows are those of the first followed by those of the second. */
  lemma TargetsOfAppend(a: seq<MonthlyGoalTarget>, b: seq<MonthlyGoalTarget>, goalId: Id)
    ensures TargetsOf(a + b, goalId) == TargetsOf(a, goalId) + TargetsOf(b, goalId)
  {
    FilterAppend(a, b, HasGoal(goalId));
  }

  /** The row `handleAddTarget` inserts; `is_completed` is left to the
      store's default. */
  datatype NewTarget = NewTarget(goalId: Id, target: string)

  /** What `handleAddTarget` does: the insert it makes, the list shown
      after it and the text left in the input. */
  datatype AddOutcome = AddOutcome(insert: Option<NewTarget>, targets: seq<MonthlyGoalTarget>, input: string)

  /** `handleAddTarget` with the input text `newTarget`; `returned` is the
      row the store sends back for the insert, if any. */
  function AddTarget(targets: seq<MonthlyGoalTarget>, newTarget: string, goalId: Id,
                     returned: Option<MonthlyGoalTarget>): (r: AddOutcome)
    ensures r.insert.Some? <==> !IsBlank(newTarget)
    ensures r.insert.Some? ==> r.insert.value == NewTarget(goalId, Trim(newTarget)) && r.insert.value.target != []
    ensures r.insert.Some? && returned.Some? ==> r.targets == targets + [returned.value] && r.input == ""
    ensures !(r.insert.Some? && returned.Some?) ==> r.targets == targets && r.input == newTarget
  {
    var text := Trim(newTarget);
    if text == [] then AddOutcome(None, targets, newTarget)
    else match returned
      case Some(row) => AddOutcome(Some(NewTarget(goalId, text)), targets + [row], "")
      case None => AddOutcome(Some(NewTarget(goalId, text)), targets, newTarget)
  }

  /** `{ ...target, is_completed: !target.is_completed }`. */
  function Flipped(t: MonthlyGoalTarget): (r: MonthlyGoalTarget)
    ensures r.isCompleted != t.isCompleted && r.(isCompleted := t.isCompleted) == t
  {
    t.(isCompleted := !t.isCompleted)
  }

  /** The list after `handleToggleTarget(target)`: every entry with the
      target's id is replaced by the flipped target; no other entry moves or
      changes. */
  function ToggleTarget(targets: seq<MonthlyGoalTarget>, target: MonthlyGoalTarget): (r: seq<MonthlyGoalTarget>)
    ensures |r| == |targets|
    ensures forall i :: 0 <= i < |r| && targets[i].id == target.id ==> r[i] == Flipped(target)
    ensures forall i :: 0 <= i < |r| && targets[i].id != target.id ==> r[i] == targets[i]
    ensures forall i :: 0 <= i < |r| ==> r[i].id == targets[i].id
  {
    seq(|targets|, i requires 0 <= i < |targets| => if targets[i].id == target.id then Flipped(target) else targets[i])
  }

  /** Toggling an entry as shown and then toggling the result restores the
      list, provided the shown entry is the one the list holds under that id. */
  lemma ToggleTargetTwice(targets: seq<MonthlyGoalTarget>, target: MonthlyGoalTarget)
    requires forall i :: 0 <= i < |targets| && targets[i].id == target.id ==> targets[i] == target
    ensures ToggleTarget(ToggleTarget(targets, target), Flipped(target)) == targets
  {
    var once := ToggleTarget(targets, target);
    var twice := ToggleTarget(once, Flipped(target));
    forall i | 0 <= i < |targets| ensures twice[i] == targets[i] {
      if targets[i].id == target.id {
        assert Flipped(Flipped(target)) == target;
      }
    }
  }

  function HasOtherId(id: Id): MonthlyGoalTarget -> bool {
    (t: MonthlyGoalTarget) => t.id != id
  }

  /** The list after `handleDeleteTarget(id)`, which only changes the page:
      every entry with the id is gone and the rest keep their order. */
  function DeleteTarget(targets: seq<MonthlyGoalTarget>, id: Id): (r: seq<MonthlyGoalTarget>)
    ensures forall t :: t in r <==> t in targets && t.id != id
    ensures forall i :: 0 <= i < |r| ==> r[i].id != id
    ensures |r| <= |targets|
    ensures (forall i :: 0 <= i < |targets| ==> targets[i].id != id) ==> r == targets
  {
    FilterAllOrNone(targets, HasOtherId(id));
    Filter(targets, HasOtherId(id))
  }

  /** Deleting keeps order: it distributes over joined lists. */
  lemma DeleteTargetAppend(a: seq<MonthlyGoalTarget>, b: seq<MonthlyGoalTarget>, id: Id)
    ensures DeleteTarget(a + b, id) == DeleteTarget(a, id) + DeleteTarget(b, id)
  {
    FilterAppend(a, b, HasOtherId(id));
  }

  /** Deleting an entry after toggling it is the same as deleting it. */
  lemma {:induction false} DeleteAfterToggle(targets: seq<MonthlyGoalTarget>, target: MonthlyGoalTarget)
    ensures DeleteTarget(ToggleTarget(targets, target), target.id) == DeleteTarget(targets, target.id)
    decreases |targets|
  {
    if targets != [] {
      var toggled := ToggleTarget(targets, target);
      assert targets == [targets[0]] + targets[1..];
      assert toggled == [toggled[0]] + toggled[1..];
      assert toggled[1..] == ToggleTarget(targets[1..], target);
      DeleteAfterToggle(targets[1..], target);
      DeleteTargetAppend([toggled[0]], toggled[1..], target.id);
      DeleteTargetAppend([targets[0]], targets[1..], target.id);
    }
  }
}

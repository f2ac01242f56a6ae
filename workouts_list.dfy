/** The plain workouts list of the gym page: adding a workout with its reps,
    ticking one off and removing one from the page. */
module WorkoutsList {
  import opened Common
  import opened Collections
  import opened Strings
  import opened Rows

  /** The row `handleAddWorkout` inserts; the flags are left to the store's
      defaults. */
  datatype NewWorkout = NewWorkout(workout: string, reps: string)

  /** What `handleAddWorkout` does: the insert it makes, the list shown
      after it and the two inputs left on the page. */
  datatype AddOutcome = AddOutcome(insert: Option<NewWorkout>, workouts: seq<GymWorkout>, nameInput: string, repsInput: string)

  /** `handleAddWorkout` with the name and reps inputs; `returned` is the
      row the store sends back for the insert, if any. */
  function AddWorkout(workouts: seq<GymWorkout>, newWorkout: string, newReps: string,
                      returned: Option<GymWorkout>): (r: AddOutcome)
    ensures r.insert.Some? <==> !IsBlank(newWorkout)
    ensures r.insert.Some? ==> r.insert.value == NewWorkout(Trim(newWorkout), Trim(newReps)) && r.insert.value.workout != []
    ensures r.insert.Some? && returned.Some? ==>
      r.workouts == workouts + [returned.value] && r.nameInput == "" && r.repsInput == ""
    ensures !(r.insert.Some? && returned.Some?) ==>
      r.workouts == workouts && r.nameInput == newWorkout && r.repsInput == newReps
  {
    var name := Trim(newWorkout);
    if name == [] then AddOutcome(None, workouts, newWorkout, newReps)
    else
      var insert := NewWorkout(name, Trim(newReps));
      match returned
      case Some(row) => AddOutcome(Some(insert), workouts + [row], "", "")
      case None => AddOutcome(Some(insert), workouts, newWorkout, newReps)
  }

  /** `{ ...workout, is_completed: !workout.is_completed }`. */
  function Flipped(w: GymWorkout): (r: GymWorkout)
    ensures r.isCompleted != w.isCompleted && r.(isCompleted := w.isCompleted) == w
  {
    w.(isCompleted := !w.isCompleted)
  }

  /** The list after `handleToggleWorkout(workout)`: every entry with the
      workout's id is replaced by the flipped workout; no other entry moves
      or changes. */
  function ToggleWorkout(workouts: seq<GymWorkout>, workout: GymWorkout): (r: seq<GymWorkout>)
    ensures |r| == |workouts|
    ensures forall i :: 0 <= i < |r| && workouts[i].id == workout.id ==> r[i] == Flipped(workout)
    ensures forall i :: 0 <= i < |r| && workouts[i].id != workout.id ==> r[i] == workouts[i]
    ensures forall i :: 0 <= i < |r| ==> r[i].id == workouts[i].id
  {
    seq(|workouts|, i requires 0 <= i < |workouts| => if workouts[i].id == workout.id then Flipped(workout) else workouts[i])
  }

  /** Toggling an entry as shown and then toggling the result restores the
      list, provided the shown entry is the one the list holds under that id. */
  lemma ToggleWorkoutTwice(workouts: seq<GymWorkout>, workout: GymWorkout)
    requires forall i :: 0 <= i < |workouts| && workouts[i].id == workout.id ==> workouts[i] == workout
    ensures ToggleWorkout(ToggleWorkout(workouts, workout), Flipped(workout)) == workouts
  {
    var once := ToggleWorkout(workouts, workout);
    var twice := ToggleWorkout(once, Flipped(workout));
    forall i | 0 <= i < |workouts| ensures twice[i] == workouts[i] {
      if workouts[i].id == workout.id {
        assert Flipped(Flipped(workout)) == workout;
      }
    }
  }

  function HasOtherId(id: Id): GymWorkout -> bool {
    (w: GymWorkout) => w.id != id
  }

  /** The list after `handleDeleteWorkout(id)`, which only changes the page:
      every entry with the id is gone and the rest keep their order. */
  function DeleteWorkout(workouts: seq<GymWorkout>, id: Id): (r: seq<GymWorkout>)
    ensures forall w :: w in r <==> w in workouts && w.id != id
    ensures forall i :: 0 <= i < |r| ==> r[i].id != id
    ensures |r| <= |workouts|
    ensures (forall i :: 0 <= i < |workouts| ==> workouts[i].id != id) ==> r == workouts
  {
    FilterAllOrNone(workouts, HasOtherId(id));
    Filter(workouts, HasOtherId(id))
  }

  /** Deleting keeps order: it distributes over joined lists. */
  lemma DeleteWorkoutAppend(a: seq<GymWorkout>, b: seq<GymWorkout>, id: Id)
    ensures DeleteWorkout(a + b, id) == DeleteWorkout(a, id) + DeleteWorkout(b, id)
  {
    FilterAppend(a, b, HasOtherId(id));
  }

  /** A workout added and then deleted by its id leaves the list as it was
      with that id deleted. */
  lemma DeleteAfterAdd(workouts: seq<GymWorkout>, row: GymWorkout)
    ensures DeleteWorkout(workouts + [row], row.id) == DeleteWorkout(workouts, row.id)
  {
    DeleteWorkoutAppend(workouts, [row], row.id);
    assert DeleteWorkout([row], row.id) == [];
  }
}

/** The gym workouts panel: nine required workouts, padded with blank rows
    when the user has fewer, and a list of optional ones that can be
    toggled, renamed and extended. */
module GymWorkouts {
  import opened Common
  import opened Collections
  import opened Strings
  import opened Rows

  /** The panel always shows this many required workouts. */
  const MaxRequired := 9

  /** The name stored for a freshly added optional workout. */
  const NewOptionalName := "New optional workout"

  function IsRequired(w: GymWorkout): bool {
    w.isRequired
  }

  function IsOptional(w: GymWorkout): bool {
    !w.isRequired
  }

  function IsCompleted(w: GymWorkout): bool {
    w.isCompleted
  }

  /** `data.filter(w => w.is_required).slice(0, 9)`: the first nine required
      rows in fetched order. */
  function RequiredOf(data: seq<GymWorkout>): (r: seq<GymWorkout>)
    ensures |r| <= MaxRequired
    ensures |r| == if Count(data, IsRequired) < MaxRequired then Count(data, IsRequired) else MaxRequired
    ensures r == Filter(data, IsRequired)[..|r|]
    ensures forall i :: 0 <= i < |r| ==> r[i].isRequired && r[i] in data
  {
    var all := Filter(data, IsRequired);
    var r := if |all| < MaxRequired then all else all[..MaxRequired];
    assert forall i :: 0 <= i < |r| ==> r[i] in all;
    r
  }

  /** The blank required rows the store returns for the padding inserts,
      one per fresh id, created in `month`. */
  function BlankRows(ids: seq<Id>, month: string): (r: seq<GymWorkout>)
    ensures |r| == |ids|
    ensures forall i :: 0 <= i < |r| ==> r[i].id == ids[i] && r[i].workout == "" && r[i].reps.None?
    ensures forall i :: 0 <= i < |r| ==> r[i].isRequired && !r[i].isCompleted && r[i].createdMonth == month
  {
    seq(|ids|, i requires 0 <= i < |ids| => GymWorkout(ids[i], "", None, true, false, month))
  }

  /** Every fetched row is either a required or an optional one. */
  lemma RequiredOptionalPartition(data: seq<GymWorkout>)
    ensures multiset(Filter(data, IsRequired)) + multiset(Filter(data, IsOptional)) == multiset(data)
    ensures forall w :: !(w in Filter(data, IsRequired) && w in Filter(data, IsOptional))
  {
    FilterPartition(data, IsRequired, IsOptional);
  }

  /** The list with the workout at `i` flipped between done and not done. */
  function ToggledAt(ws: seq<GymWorkout>, i: int): (r: seq<GymWorkout>)
    requires 0 <= i < |ws|
    ensures |r| == |ws|
    ensures r[i].isCompleted != ws[i].isCompleted && r[i].(isCompleted := ws[i].isCompleted) == ws[i]
    ensures forall j :: 0 <= j < |ws| && j != i ==> r[j] == ws[j]
  {
    ws[i := ws[i].(isCompleted := !ws[i].isCompleted)]
  }

  lemma ToggledAtTwice(ws: seq<GymWorkout>, i: int)
    requires 0 <= i < |ws|
    ensures ToggledAt(ToggledAt(ws, i), i) == ws
  {
    var once := ToggledAt(ws, i);
    assert once[i].(isCompleted := !once[i].isCompleted) == ws[i];
  }

  /** The list with the workout at `i` renamed to `name`. */
  function RenamedAt(ws: seq<GymWorkout>, i: int, name: string): (r: seq<GymWorkout>)
    requires 0 <= i < |ws|
    ensures |r| == |ws|
    ensures r[i].workout == name && r[i].(workout := ws[i].workout) == ws[i]
    ensures forall j :: 0 <= j < |ws| && j != i ==> r[j] == ws[j]
  {
    ws[i := ws[i].(workout := name)]
  }

  /** `allRequiredCompleted`: exactly nine required workouts are completed. */
  function AllRequiredCompleted(required: seq<GymWorkout>): (b: bool)
    ensures |required| == MaxRequired ==> (b <==> forall i :: 0 <= i < |required| ==> required[i].isCompleted)
    ensures b ==> |required| >= MaxRequired
  {
    CountAll(required, IsCompleted);
    Count(required, IsCompleted) == MaxRequired
  }

  /** A partial row write (`upsertData`) made by the panel. */
  datatype Upsert =
    | SetCompleted(id: Id, isCompleted: bool)
    | SetName(id: Id, workout: string)

  class Panel {
    var required: seq<GymWorkout>
    var optional: seq<GymWorkout>

    /** Required rows are flagged `is_required`, optional ones are not, and
        there are never more than nine required ones. */
    ghost predicate Valid()
      reads this
    {
      |required| <= MaxRequired
      && (forall i :: 0 <= i < |required| ==> required[i].isRequired)
      && (forall i :: 0 <= i < |optional| ==> !optional[i].isRequired)
    }

    constructor ()
      ensures Valid() && required == [] && optional == []
    {
      required, optional := [], [];
    }

    /** `loadWorkouts` on the fetched rows. Each padding insert returns a
        blank row with the next of `freshIds`, created in `month`. */
    method Load(data: seq<GymWorkout>, freshIds: seq<Id>, month: string)
      requires |freshIds| >= MaxRequired
      modifies this
      ensures Valid()
      ensures |required| == MaxRequired
      ensures var kept := RequiredOf(data);
        required == kept + BlankRows(freshIds[..MaxRequired - |kept|], month)
      ensures optional == Filter(data, IsOptional)
    {
      var kept := RequiredOf(data);
      var req := kept;
      var k := 0;
      while |req| < MaxRequired
        invariant |kept| <= |req| <= MaxRequired
        invariant k == |req| - |kept|
        invariant req == kept + BlankRows(freshIds[..k], month)
        decreases MaxRequired - |req|
      {
        assert freshIds[..k + 1] == freshIds[..k] + [freshIds[k]];
        req := req + [GymWorkout(freshIds[k], "", None, true, false, month)];
        k := k + 1;
      }
      required := req[..MaxRequired];
      optional := Filter(data, IsOptional);
    }

    /** `handleToggleRequired(index)`. */
    method ToggleRequired(index: int) returns (write: Upsert)
      requires Valid() && 0 <= index < |required|
      modifies this
      ensures Valid()
      ensures required == ToggledAt(old(required), index) && optional == old(optional)
      ensures write == SetCompleted(old(required)[index].id, required[index].isCompleted)
    {
      var workout := required[index];
      write := SetCompleted(workout.id, !workout.isCompleted);
      required := ToggledAt(required, index);
    }

    /** `handleToggleOptional(index)`. */
    method ToggleOptional(index: int) returns (write: Upsert)
      requires Valid() && 0 <= index < |optional|
      modifies this
      ensures Valid()
      ensures optional == ToggledAt(old(optional), index) && required == old(required)
      ensures write == SetCompleted(old(optional)[index].id, optional[index].isCompleted)
    {
      var workout := optional[index];
      write := SetCompleted(workout.id, !workout.isCompleted);
      optional := ToggledAt(optional, index);
    }

    /** `handleUpdateRequired(index, name)`. */
    method UpdateRequired(index: int, name: string) returns (write: Upsert)
      requires Valid() && 0 <= index < |required|
      modifies this
      ensures Valid()
      ensures required == RenamedAt(old(required), index, Trim(name)) && optional == old(optional)
      ensures write == SetName(required[index].id, required[index].workout)
    {
      var trimmed := Trim(name);
      write := SetName(required[index].id, trimmed);
      var renamed := RenamedAt(required, index, trimmed);
      assert forall j :: 0 <= j < |renamed| ==> renamed[j].isRequired == required[j].isRequired;
      required := renamed;
    }

    /** `handleUpdateOptional(index, name)`. */
    method UpdateOptional(index: int, name: string) returns (write: Upsert)
      requires Valid() && 0 <= index < |optional|
      modifies this
      ensures Valid()
      ensures optional == RenamedAt(old(optional), index, Trim(name)) && required == old(required)
      ensures write == SetName(optional[index].id, optional[index].workout)
    {
      var trimmed := Trim(name);
      write := SetName(optional[index].id, trimmed);
      var renamed := RenamedAt(optional, index, trimmed);
      assert forall j :: 0 <= j < |renamed| ==> renamed[j].isRequired == optional[j].isRequired;
      optional := renamed;
    }

    /** `handleAddOptional`: inserts a non-required, incomplete workout and,
        when the store returns it (with id `insertedId`, created in
        `month`), appends it to the optional list. */
    method AddOptional(insertedId: Option<Id>, month: string)
      requires Valid()
      modifies this
      ensures Valid()
      ensures required == old(required)
      ensures insertedId.Some? ==>
        optional == old(optional) + [GymWorkout(insertedId.value, NewOptionalName, None, false, false, month)]
      ensures insertedId.None? ==> optional == old(optional)
    {
      if insertedId.Some? {
        optional := optional + [GymWorkout(insertedId.value, NewOptionalName, None, false, false, month)];
      }
    }
  }
}

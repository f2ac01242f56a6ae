/** The daily achievements card: three achievement slots, padded with blank
    rows when the user has fewer, a set of the ones ticked off this session,
    and editing one slot's text. */
module DailyAchievements {
  import opened Common
  import opened Strings
  import opened Rows

  /** The card always shows this many achievements. */
  const Slots := 3

  /** The blank rows the store returns for the padding inserts, one per
      fresh id. */
  function BlankAchievements(ids: seq<Id>): (r: seq<DailyAchievement>)
    ensures |r| == |ids|
    ensures forall i :: 0 <= i < |r| ==> r[i] == DailyAchievement(ids[i], "")
  {
    seq(|ids|, i requires 0 <= i < |ids| => DailyAchievement(ids[i], ""))
  }

  /** The set after `handleToggleCompletion(id)`: `id` is added when absent
      and removed when present; no other id changes. */
  function Toggled(done: set<Id>, id: Id): (r: set<Id>)
    ensures id in r <==> id !in done
    ensures forall x :: x != id ==> (x in r <==> x in done)
  {
    if id in done then done - {id} else done + {id}
  }

  /** Toggling the same id twice restores the set. */
  lemma ToggledTwice(done: set<Id>, id: Id)
    ensures Toggled(Toggled(done, id), id) == done
  {
    var once := Toggled(done, id);
    assert forall x :: x in Toggled(once, id) <==> x in done;
  }

  /** The list after `handleUpdateAchievement(index, text)`: the slot at
      `index` gets the trimmed text; an index with no slot changes nothing. */
  function UpdatedAt(list: seq<DailyAchievement>, index: int, text: string): (r: seq<DailyAchievement>)
    ensures |r| == |list|
    ensures 0 <= index < |list| ==> r[index] == DailyAchievement(list[index].id, Trim(text))
    ensures forall j :: 0 <= j < |list| && j != index ==> r[j] == list[j]
    ensures !(0 <= index < |list|) ==> r == list
  {
    if 0 <= index < |list| then list[index := list[index].(achievement := Trim(text))] else list
  }

  class Card {
    var achievements: seq<DailyAchievement>
    /** `completedAchievements`: ids ticked off; kept only in the page. */
    var completed: set<Id>

    ghost predicate Valid()
      reads this
    {
      |achievements| <= Slots
    }

    constructor ()
      ensures Valid() && achievements == [] && completed == {}
    {
      achievements, completed := [], {};
    }

    /** `loadAchievements` on the fetched rows: pads with blank rows while
        there are fewer than three (each insert returning a row with the
        next of `freshIds`), then keeps the first three. */
    method Load(data: seq<DailyAchievement>, freshIds: seq<Id>)
      requires |freshIds| >= Slots
      modifies this
      ensures Valid() && |achievements| == Slots
      ensures |data| >= Slots ==> achievements == data[..Slots]
      ensures |data| < Slots ==> achievements == data + BlankAchievements(freshIds[..Slots - |data|])
      ensures completed == old(completed)
    {
      var rows := data;
      var k := 0;
      while |rows| < Slots
        invariant |data| <= |rows|
        invariant k == |rows| - |data| && k <= Slots
        invariant rows == data + BlankAchievements(freshIds[..k])
        invariant |data| >= Slots ==> k == 0
        decreases Slots - |rows|
      {
        assert freshIds[..k + 1] == freshIds[..k] + [freshIds[k]];
        rows := rows + [DailyAchievement(freshIds[k], "")];
        k := k + 1;
      }
      assert |data| >= Slots ==> rows == data;
      achievements := rows[..Slots];
    }

    /** `handleToggleCompletion(id)`. */
    method ToggleCompletion(id: Id)
      requires Valid()
      modifies this
      ensures Valid()
      ensures completed == Toggled(old(completed), id) && achievements == old(achievements)
    {
      completed := Toggled(completed, id);
    }

    /** `handleUpdateAchievement(index, text)`: for a slot that exists,
        writes its trimmed text and shows it. */
    method UpdateAchievement(index: int, text: string) returns (write: Option<DailyAchievement>)
      requires Valid()
      modifies this
      ensures Valid()
      ensures achievements == UpdatedAt(old(achievements), index, text) && completed == old(completed)
      ensures write.Some? <==> 0 <= index < |achievements|
      ensures write.Some? ==> write.value == achievements[index]
    {
      if 0 <= index < |achievements| {
        var updated := UpdatedAt(achievements, index, text);
        write := Some(updated[index]);
        achievements := updated;
      } else {
        write := None;
      }
    }
  }
}

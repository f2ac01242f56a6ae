/** The weekly thread tracker: one row per weekday, cleared when the ISO
    week changes, shown starting from today's weekday. Days are local
    calendar days as day numbers; `today` is the current one. */
module WeeklyThreadTracker {
  import opened Common
  import opened Collections
  import opened Rows
  import opened Calendar

  // ---------------------------------------------------------------------
  // ISO 8601 week numbers (section 4.1.4 of ISO 8601:2004: a week belongs to
  // the year that holds its Thursday; weeks run Monday to Sunday).

  /** `getUTCDay() || 7`: Monday = 1 .. Sunday = 7. */
  function IsoWeekday(n: int): (d: int)
    ensures 1 <= d <= 7
    ensures d % 7 == Weekday(n)
  {
    if Weekday(n) == 0 then 7 else Weekday(n)
  }

  /** The Thursday of the Monday-to-Sunday week holding day `n`. */
  function WeekThursday(n: int): (t: int)
    ensures n - 3 <= t <= n + 3
    ensures IsoWeekday(t) == 4
  {
    n + 4 - IsoWeekday(n)
  }

  /** `getISOWeek`: the week, counted from 1, of the year holding this
      week's Thursday. */
  function IsoWeek(n: int): (w: int)
    ensures 1 <= w <= 53
  {
    var thursday := WeekThursday(n);
    var y := YearOf(thursday);
    YearLength(y);
    CeilDiv(thursday - DaysBeforeYear(y) + 1, 7)
  }

  /** The seven days from a Monday to the following Sunday have one week
      number. */
  lemma WeekSharesNumber(monday: int, k: int)
    requires Weekday(monday) == 1 && 0 <= k < 7
    ensures IsoWeek(monday + k) == IsoWeek(monday)
  {
    assert IsoWeekday(monday + k) == k + 1;
    assert WeekThursday(monday + k) == WeekThursday(monday);
  }

  /** 4 January is always in week 1. */
  lemma FourthOfJanuaryInWeekOne(y: int)
    ensures IsoWeek(DayNumber(y, 0, 4)) == 1
  {
    var n := DayNumber(y, 0, 4);
    var t := WeekThursday(n);
    YearLength(y);
    YearOfUnique(t, y);
  }

  // ---------------------------------------------------------------------
  // The list of seven rows.

  /** A list holding exactly the weekdays 0 (Sunday) .. 6, in order. */
  predicate IsWeekList(days: seq<ThreadDay>) {
    |days| == 7 && forall i :: 0 <= i < 7 ==> days[i].dayOfWeek == i
  }

  /** `data.find(d => d.day_of_week === dow)`: the first row for that weekday. */
  function Find(data: seq<ThreadDay>, dow: int): (r: Option<ThreadDay>)
    ensures r.None? <==> forall j :: 0 <= j < |data| ==> data[j].dayOfWeek != dow
    ensures r.Some? ==> exists j ::
      0 <= j < |data| && data[j] == r.value && data[j].dayOfWeek == dow
      && forall k :: 0 <= k < j ==> data[k].dayOfWeek != dow
    decreases |data|
  {
    if data == [] then None
    else if data[0].dayOfWeek == dow then Some(data[0])
    else
      var r := Find(data[1..], dow);
      assert forall j :: 1 <= j < |data| ==> data[j] == data[1..][j - 1];
      r
  }

  /** The stored row for weekday `i`, or a new incomplete one. */
  function DayRow(data: seq<ThreadDay>, freshId: Id, i: int, today: int): (r: ThreadDay)
    ensures r.dayOfWeek == i
    ensures Find(data, i).Some? ==> r == Find(data, i).value
    ensures Find(data, i).None? ==> r == ThreadDay(freshId, i, false, today, today)
  {
    match Find(data, i)
    case Some(d) => d
    case None => ThreadDay(freshId, i, false, today, today)
  }

  /** `allDays`: one row per weekday, the stored one when there is one, else
      a new incomplete row carrying the id `freshIds[i]`. */
  function Normalize(data: seq<ThreadDay>, freshIds: seq<Id>, today: int): (r: seq<ThreadDay>)
    requires |freshIds| == 7
    ensures IsWeekList(r)
    ensures forall i :: 0 <= i < 7 ==> r[i] == DayRow(data, freshIds[i], i, today)
  {
    seq(7, i requires 0 <= i < 7 => DayRow(data, freshIds[i], i, today))
  }

  /** A row is cleared when it is completed and was last updated in a week
      with another number; the year is not compared. */
  predicate NeedsReset(d: ThreadDay, currentWeek: int) {
    IsoWeek(d.updatedAt) != currentWeek && d.isCompleted
  }

  function ResetDay(d: ThreadDay, currentWeek: int, today: int): (r: ThreadDay)
    ensures NeedsReset(d, currentWeek) ==> r == d.(isCompleted := false, updatedAt := today)
    ensures !NeedsReset(d, currentWeek) ==> r == d
  {
    if NeedsReset(d, currentWeek) then d.(isCompleted := false, updatedAt := today) else d
  }

  /** `normalized`: every row after the week check. Afterwards every
      completed row was updated in a week with the current number. */
  function ResetWeek(days: seq<ThreadDay>, today: int): (r: seq<ThreadDay>)
    ensures |r| == |days|
    ensures forall i :: 0 <= i < |r| ==> r[i] == ResetDay(days[i], IsoWeek(today), today)
    ensures forall i :: 0 <= i < |r| ==> r[i].id == days[i].id && r[i].dayOfWeek == days[i].dayOfWeek
    ensures forall i :: 0 <= i < |r| && r[i].isCompleted ==> IsoWeek(r[i].updatedAt) == IsoWeek(today)
    ensures IsWeekList(days) ==> IsWeekList(r)
  {
    seq(|days|, i requires 0 <= i < |days| => ResetDay(days[i], IsoWeek(today), today))
  }

  /** The upserts of the week check against week number `currentWeek`, in
      row order: one cleared row, stamped today, for each completed row last
      updated in another week number. */
  function ResetWrites(days: seq<ThreadDay>, currentWeek: int, today: int): (w: seq<ThreadDay>)
    ensures |w| <= |days|
    ensures forall x :: x in w <==> exists i :: 0 <= i < |days| && NeedsReset(days[i], currentWeek)
                                             && x == ResetDay(days[i], currentWeek, today)
    ensures forall x :: x in w ==> !x.isCompleted && x.updatedAt == today
    decreases |days|
  {
    if days == [] then []
    else
      var rest := ResetWrites(days[1..], currentWeek, today);
      ResetWritesTail(days, currentWeek, today, rest);
      (if NeedsReset(days[0], currentWeek) then [ResetDay(days[0], currentWeek, today)] else []) + rest
  }

  lemma ResetWritesTail(days: seq<ThreadDay>, currentWeek: int, today: int, rest: seq<ThreadDay>)
    requires days != []
    requires forall x :: x in rest <==> exists j :: 0 <= j < |days[1..]| && NeedsReset(days[1..][j], currentWeek)
                                                && x == ResetDay(days[1..][j], currentWeek, today)
    ensures forall x :: x in rest <==> exists i :: 1 <= i < |days| && NeedsReset(days[i], currentWeek)
                                                && x == ResetDay(days[i], currentWeek, today)
  {
    forall x ensures x in rest <==> exists i :: 1 <= i < |days| && NeedsReset(days[i], currentWeek)
                                     && x == ResetDay(days[i], currentWeek, today) {
      if x in rest {
        var j :| 0 <= j < |days[1..]| && NeedsReset(days[1..][j], currentWeek) && x == ResetDay(days[1..][j], currentWeek, today);
        assert days[j + 1] == days[1..][j];
      }
      if exists i :: 1 <= i < |days| && NeedsReset(days[i], currentWeek) && x == ResetDay(days[i], currentWeek, today) {
        var i :| 1 <= i < |days| && NeedsReset(days[i], currentWeek) && x == ResetDay(days[i], currentWeek, today);
        assert days[1..][i - 1] == days[i];
      }
    }
  }

  /** A row completed on Wednesday 10 January 2024 (week 2) is still shown
      as completed on Wednesday 8 January 2025, which is also week 2. */
  lemma ResetIgnoresYear(d: ThreadDay)
    requires d.isCompleted && d.updatedAt == DayNumber(2024, 0, 10)
    ensures IsoWeek(DayNumber(2024, 0, 10)) == 2 && IsoWeek(DayNumber(2025, 0, 8)) == 2
    ensures ResetDay(d, IsoWeek(DayNumber(2025, 0, 8)), DayNumber(2025, 0, 8)) == d
  {
    WeekOfDay(2024, 19723, 19732, 2);
    WeekOfDay(2025, 20089, 20096, 2);
  }

  /** The week number of a Wednesday `n` of year `y`, whose first day is `start`. */
  lemma WeekOfDay(y: int, start: int, n: int, w: int)
    requires DaysBeforeYear(y) == start && DaysBeforeYear(y + 1) == start + 365 + (if IsLeapYear(y) then 1 else 0)
    requires Weekday(n) == 3 && start <= n + 1 < start + 365 && (n + 1 - start + 7) / 7 == w
    ensures IsoWeek(n) == w
  {
    assert WeekThursday(n) == n + 1;
    YearOfUnique(n + 1, y);
  }

  /** What the tracker shows after loading: the stored rows completed to
      seven, then cleared for a new week. */
  function Load(data: seq<ThreadDay>, freshIds: seq<Id>, today: int): (r: seq<ThreadDay>)
    requires |freshIds| == 7
    ensures IsWeekList(r)
    ensures forall i :: 0 <= i < 7 ==> r[i] == ResetDay(DayRow(data, freshIds[i], i, today), IsoWeek(today), today)
    ensures forall i :: 0 <= i < 7 && r[i].isCompleted ==> IsoWeek(r[i].updatedAt) == IsoWeek(today)
  {
    ResetWeek(Normalize(data, freshIds, today), today)
  }

  // ---------------------------------------------------------------------
  // Display order and toggling.

  /** `rotateFromToday`: the rows by weekday, starting at `todayIndex` and
      wrapping around. */
  function RotateFromToday(threadDays: seq<ThreadDay>, todayIndex: int): (r: seq<ThreadDay>)
    requires 0 <= todayIndex < 7
    ensures |r| == |threadDays| && multiset(r) == multiset(threadDays)
    ensures IsWeekList(threadDays) ==> forall j :: 0 <= j < 7 ==> r[j] == threadDays[(todayIndex + j) % 7]
    ensures IsWeekList(threadDays) ==> forall j :: 0 <= j < 7 ==> r[j].dayOfWeek == (todayIndex + j) % 7
  {
    var sorted := SortBy(threadDays, DayOfWeek);
    var k := if todayIndex <= |sorted| then todayIndex else |sorted|;
    RotationFacts(threadDays, todayIndex);
    sorted[k..] + sorted[..k]
  }

  lemma RotationFacts(threadDays: seq<ThreadDay>, todayIndex: int)
    requires 0 <= todayIndex < 7
    ensures var sorted := SortBy(threadDays, DayOfWeek);
      var k := if todayIndex <= |sorted| then todayIndex else |sorted|;
      var r := sorted[k..] + sorted[..k];
      && |r| == |threadDays| && multiset(r) == multiset(threadDays)
      && (IsWeekList(threadDays) ==> forall j :: 0 <= j < 7 ==> r[j] == threadDays[(todayIndex + j) % 7])
  {
    var sorted := SortBy(threadDays, DayOfWeek);
    var k := if todayIndex <= |sorted| then todayIndex else |sorted|;
    RotationPermutes(sorted, k);
    if IsWeekList(threadDays) {
      WeekListSorted(threadDays);
      assert sorted == threadDays && k == todayIndex;
      RotateWeekList(threadDays, todayIndex);
    }
  }

  lemma RotationPermutes(s: seq<ThreadDay>, k: int)
    requires 0 <= k <= |s|
    ensures multiset(s[k..] + s[..k]) == multiset(s)
  {
    assert s == s[..k] + s[k..];
  }

  lemma RotateWeekList(days: seq<ThreadDay>, k: int)
    requires IsWeekList(days) && 0 <= k < 7
    ensures forall j :: 0 <= j < 7 ==> (days[k..] + days[..k])[j] == days[(k + j) % 7]
  {
    var r := days[k..] + days[..k];
    forall j | 0 <= j < 7 ensures r[j] == days[(k + j) % 7] {
      if j < 7 - k {
        assert r[j] == days[k..][j];
      } else {
        assert r[j] == days[..k][j - (7 - k)];
      }
    }
  }

  /** A list of the seven weekdays in order is already sorted by weekday. */
  lemma WeekListSorted(days: seq<ThreadDay>)
    ensures IsWeekList(days) ==> SortBy(days, DayOfWeek) == days
  {
    if IsWeekList(days) {
      assert SortedBy(days, DayOfWeek);
      SortBySorted(days, DayOfWeek);
    }
  }

  /** `handleToggleDay`: the row written back, flipped and stamped today. */
  function ToggledDay(day: ThreadDay, today: int): (r: ThreadDay)
    ensures r.isCompleted == !day.isCompleted && r.updatedAt == today
    ensures r.id == day.id && r.dayOfWeek == day.dayOfWeek && r.createdAt == day.createdAt
  {
    day.(isCompleted := !day.isCompleted, updatedAt := today)
  }

  /** The displayed list after a toggle: the row of that weekday is
      replaced, the others are kept. */
  function ToggleDay(threadDays: seq<ThreadDay>, day: ThreadDay, today: int): (r: seq<ThreadDay>)
    ensures |r| == |threadDays|
    ensures forall i :: 0 <= i < |r| ==>
      r[i] == if threadDays[i].dayOfWeek == day.dayOfWeek then ToggledDay(day, today) else threadDays[i]
    ensures IsWeekList(threadDays) ==> IsWeekList(r)
  {
    seq(|threadDays|, i requires 0 <= i < |threadDays| =>
      if threadDays[i].dayOfWeek == day.dayOfWeek then ToggledDay(day, today) else threadDays[i])
  }

  /** Toggling the shown row of a weekday twice on one day restores its
      completion state. */
  lemma ToggleDayTwice(threadDays: seq<ThreadDay>, i: int, today: int)
    requires IsWeekList(threadDays) && 0 <= i < 7
    ensures var once := ToggleDay(threadDays, threadDays[i], today);
      var twice := ToggleDay(once, once[i], today);
      twice[i].isCompleted == threadDays[i].isCompleted
      && forall j :: 0 <= j < 7 && j != i ==> twice[j] == threadDays[j]
  {
  }
}

/** The gym streak card: `calculateStreak` compares the last completed
    workout day with today. It only knows one date, so it can report a
    streak of 1 at most. */
module GymStreak {
  import opened Common

  const MsPerDay := 1000 * 60 * 60 * 24

  /** `setHours(0, 0, 0, 0)`: the start of the day holding instant `t`. */
  function Midnight(t: int): (m: int)
    ensures m <= t < m + MsPerDay && m % MsPerDay == 0
  {
    (t / MsPerDay) * MsPerDay
  }

  /** `Math.ceil((today - last) / msPerDay)` on the two midnights: the number
      of calendar days from the last workout's day to today's. */
  function DiffDays(todayMs: int, lastMs: int): (r: int)
    ensures r == todayMs / MsPerDay - lastMs / MsPerDay
  {
    var k := todayMs / MsPerDay - lastMs / MsPerDay;
    assert Midnight(todayMs) - Midnight(lastMs) == MsPerDay * k;
    var r := CeilDiv(Midnight(todayMs) - Midnight(lastMs), MsPerDay);
    CeilExact(k, r);
    r
  }

  lemma CeilExact(k: int, r: int)
    requires MsPerDay * (r - 1) < MsPerDay * k <= MsPerDay * r
    ensures r == k
  {
    if r < k {
      MulMonotone(MsPerDay, r, k - 1);
    } else if r > k {
      MulMonotone(MsPerDay, k, r - 1);
    }
  }

  /** `calculateStreak(lastCompletedDate)` at instant `todayMs`, with the
      last completed date as an instant (`None` for a missing or empty
      date): 1 when the last workout was today or yesterday, 0 when there
      is none, it is older, or it lies in the future. */
  function CalculateStreak(lastCompleted: Option<int>, todayMs: int): (r: nat)
    ensures r <= 1
    ensures lastCompleted.None? ==> r == 0
    ensures r == 1 <==> lastCompleted.Some? && 0 <= DiffDays(todayMs, lastCompleted.value) <= 1
    ensures lastCompleted.Some? && todayMs / MsPerDay - lastCompleted.value / MsPerDay >= 2 ==> r == 0
    ensures lastCompleted.Some? && lastCompleted.value / MsPerDay > todayMs / MsPerDay ==> r == 0
  {
    match lastCompleted
    case None => 0
    case Some(last) =>
      var diffDays := DiffDays(todayMs, last);
      if diffDays == 0 then 1
      else if diffDays == 1 then 1
      else 0
  }

  /** A workout earlier the same day keeps the streak at 1 whatever the two
      times of day are. */
  lemma SameDayStreak(lastMs: int, todayMs: int)
    requires Midnight(lastMs) == Midnight(todayMs)
    ensures CalculateStreak(Some(lastMs), todayMs) == 1
  {
  }
}

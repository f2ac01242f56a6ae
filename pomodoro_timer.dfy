/** The pomodoro timer: a 25-minute countdown that ticks once a second
    while running, its `mm:ss` display and the focus time it saves. */
module PomodoroTimer {
  import opened Common
  import opened Strings

  const FocusTimeMinutes := 25

  /** The countdown length in seconds. */
  const FocusTimeSeconds := FocusTimeMinutes * 60

  // ---------------------------------------------------------------------
  // `formatTime`.

  /** A non-negative number written with at least two digits. */
  function TwoDigits(n: nat): (s: string)
    ensures AllDigits(s) && |s| >= 2
    ensures n < 100 ==> |s| == 2
    ensures ParseDigits(s) == n
  {
    var digits := NatToString(n);
    var k := if |digits| >= 2 then 0 else 2 - |digits|;
    ParseNatToString(n);
    ParseLeadingZeros(k, digits);
    assert PadStart(digits, 2, '0') == Repeat('0', k) + digits;
    PadStart(digits, 2, '0')
  }

  /** `formatTime(seconds)`: whole minutes and the seconds left over, each
      padded to two digits, joined by a colon. */
  function FormatTime(seconds: nat): (r: string)
    ensures seconds < 6000 ==> |r| == 5 && r[2] == ':'
    ensures exists i :: 0 <= i < |r| && r[i] == ':' && r[..i] == TwoDigits(seconds / 60) && r[i + 1..] == TwoDigits(seconds % 60)
  {
    var m, s := TwoDigits(seconds / 60), TwoDigits(seconds % 60);
    var r := m + ":" + s;
    assert r[..|m|] == m && r[|m|] == ':' && r[|m| + 1..] == s;
    r
  }

  /** The first position of a colon, if any. */
  function ColonIndex(s: string): (r: Option<nat>)
    ensures r.Some? ==> r.value < |s| && s[r.value] == ':' && forall j :: 0 <= j < r.value ==> s[j] != ':'
    ensures r.None? ==> forall j :: 0 <= j < |s| ==> s[j] != ':'
  {
    if s == [] then None
    else if s[0] == ':' then Some(0)
    else match ColonIndex(s[1..])
      case Some(i) => Some(i + 1)
      case None => None
  }

  /** The seconds shown by a minutes field and a seconds field of digits,
      the seconds below 60. */
  function ParseFields(mm: string, ss: string): (r: Option<nat>)
    ensures r.Some? <==> mm != [] && ss != [] && AllDigits(mm) && AllDigits(ss) && ParseDigits(ss) < 60
    ensures r.Some? ==> r.value == ParseDigits(mm) * 60 + ParseDigits(ss)
  {
    if mm != [] && ss != [] && AllDigits(mm) && AllDigits(ss) && ParseDigits(ss) < 60
    then Some(ParseDigits(mm) * 60 + ParseDigits(ss))
    else None
  }

  /** Reading a displayed time back: the fields before and after the first
      colon. */
  function ParseTime(s: string): (r: Option<nat>)
    ensures r.Some? ==> exists i :: 0 <= i < |s| && s[i] == ':' && ParseFields(s[..i], s[i + 1..]) == r
  {
    match ColonIndex(s)
    case None => None
    case Some(i) => ParseFields(s[..i], s[i + 1..])
  }

  /** The display can be read back as the number of seconds it shows. */
  lemma ParseFormatTime(seconds: nat)
    ensures ParseTime(FormatTime(seconds)) == Some(seconds)
  {
    var minutes, rest := seconds / 60, seconds % 60;
    var mm, ss := TwoDigits(minutes), TwoDigits(rest);
    assert ParseFields(mm, ss) == Some(seconds) by {
      var v := ParseFields(mm, ss);
      assert v.Some? && v.value == minutes * 60 + rest;
    }
    assert FormatTime(seconds) == mm + ":" + ss;
    ParseJoined(mm, ss);
  }

  /** Two fields joined by a colon, the first of digits, are read back as
      those two fields. */
  lemma ParseJoined(mm: string, ss: string)
    requires AllDigits(mm)
    ensures ParseTime(mm + ":" + ss) == ParseFields(mm, ss)
  {
    var r := mm + ":" + ss;
    ColonAfterDigits(mm, ss);
    assert r[..|mm|] == mm && r[|mm| + 1..] == ss;
  }

  /** In `digits + ":" + rest` the first colon follows the digits. */
  lemma {:induction false} ColonAfterDigits(digits: string, rest: string)
    requires AllDigits(digits)
    ensures ColonIndex(digits + ":" + rest) == Some(|digits|)
    decreases |digits|
  {
    if digits != [] {
      var t := digits + ":" + rest;
      assert t[1..] == digits[1..] + ":" + rest;
      ColonAfterDigits(digits[1..], rest);
    }
  }

  // ---------------------------------------------------------------------
  // The countdown.

  /** The stored `dashboard_settings` row as far as the timer reads it. */
  datatype Settings = Settings(focusTimeToday: Option<int>)

  /** `(settings.focus_time_today || 0) + added`. */
  function FocusTimeToSave(focusTimeToday: Option<int>, added: int): (r: int)
    ensures focusTimeToday.None? ==> r == added
    ensures focusTimeToday.Some? ==> r == focusTimeToday.value + added
  {
    focusTimeToday.GetOr(0) + added
  }

  /** The focus-time write of the debounced save for `added` seconds: none
      until the settings are loaded, otherwise the settings with the new
      total. */
  function FocusTimeWrite(settings: Option<Settings>, added: int): (r: Option<Settings>)
    ensures r.Some? <==> settings.Some?
    ensures r.Some? ==> r.value.focusTimeToday == Some(FocusTimeToSave(settings.value.focusTimeToday, added))
  {
    match settings
    case None => None
    case Some(s) => Some(s.(focusTimeToday := Some(FocusTimeToSave(s.focusTimeToday, added))))
  }

  class Timer {
    /** Seconds left. */
    var time: int
    var isActive: bool

    ghost predicate Valid()
      reads this
    {
      0 <= time <= FocusTimeSeconds
    }

    constructor ()
      ensures Valid() && time == FocusTimeSeconds && !isActive
    {
      time := FocusTimeSeconds;
      isActive := false;
    }

    /** `toggleTimer`. */
    method Toggle()
      requires Valid()
      modifies this
      ensures Valid() && isActive == !old(isActive) && time == old(time)
    {
      isActive := !isActive;
    }

    /** `resetTimer`. */
    method Reset()
      requires Valid()
      modifies this
      ensures Valid() && time == FocusTimeSeconds && !isActive
    {
      isActive := false;
      time := FocusTimeSeconds;
    }

    /** One second of the interval effect. While running with time left the
        timer loses one second and saves one second of focus time on top of
        the loaded `settings`; at zero it stops and reports the end of the
        session. */
    method Tick(settings: Option<Settings>) returns (save: Option<Settings>, finished: bool)
      requires Valid()
      modifies this
      ensures Valid()
      ensures old(isActive) && old(time) > 0 ==> time == old(time) - 1 && isActive
      ensures old(isActive) && old(time) > 0 ==> save == FocusTimeWrite(settings, 1) && !finished
      ensures !(old(isActive) && old(time) > 0) ==> time == old(time) && save.None?
      ensures old(time) == 0 ==> !isActive && finished
      ensures !old(isActive) && old(time) > 0 ==> !isActive && !finished
    {
      if isActive && time > 0 {
        time := time - 1;
        save := FocusTimeWrite(settings, 1);
        finished := false;
      } else if time == 0 {
        isActive := false;
        save, finished := None, true;
      } else {
        save, finished := None, false;
      }
    }
  }
}

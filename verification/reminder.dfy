/**
 * The Reminder applet's countdown (`TimerMixin` of Reminder.app's core.py).
 * A timer is a start instant and a duration; `idle`, called once a second,
 * either refreshes the displayed hours/minutes/seconds still to go or, once
 * the duration has elapsed, clears the timer and raises the alarm. The
 * duration is persisted as `str(timedelta)` and read back by
 * `str_to_timedelta`.
 *
 * Instants and durations are integers in microseconds, the resolution of
 * Python's `datetime`; the wall clock is the `now` parameter.
 */
module Reminder {
  import opened Wrappers
  import Text

  const MicrosPerSecond: nat := 1_000_000
  const SecondsPerDay: nat := 86400

  /** The shared `discount` dictionary: what the clock shows. */
  datatype Discount = Discount(hours: nat, minutes: nat, seconds: nat)

  const ZeroDiscount := Discount(0, 0, 0)

  datatype Icon = NormalIcon | ActiveIcon | UrgentIcon

  /** `start` and `timedelta` (both optional), the countdown, the tray icon and whether the popup shows. */
  datatype Timer = Timer(start: Option<int>, duration: Option<int>, discount: Discount, icon: Icon, popup: bool)

  /** The test at the head of `idle` and `update_clock`. */
  predicate IsActive(t: Timer)
  {
    t.start.Some? && t.duration.Some?
  }

  // ---------------------------------------------------------------------------
  // str(timedelta) and str_to_timedelta
  // ---------------------------------------------------------------------------

  /** `'%d:%02d:%02d' % (hh, mm, ss)` for a number of seconds under a day. */
  function ClockString(secs: nat): string
    requires secs < SecondsPerDay
  {
    Text.NatToString(secs / 3600) + ":" + Text.ZeroPad2(secs / 60 % 60) + ":" + Text.ZeroPad2(secs % 60)
  }

  /** `str(timedelta(seconds=secs))`: a leading `"N day(s), "` for a day or more. */
  function DurationString(secs: nat): (s: string)
    ensures secs < SecondsPerDay ==> s == ClockString(secs)
    ensures secs >= SecondsPerDay ==>
      |Text.LeadingDigits(s)| > 0 && |Text.LeadingDigits(s)| < |s| && s[|Text.LeadingDigits(s)|] == ' '
  {
    var days := secs / SecondsPerDay;
    var rest := ClockString(secs % SecondsPerDay);
    if days == 0 then rest
    else
      var n := Text.NatToString(days);
      var tail := (if days == 1 then " day, " else " days, ") + rest;
      Text.LeadingDigitsOfConcat(n, tail);
      n + tail
  }

  /** The characters of `[\.\d+]`. */
  predicate IsSecondsChar(c: char)
  {
    Text.IsDigit(c) || c == '.' || c == '+'
  }

  /** The greedy `[\.\d+]*`. */
  function SecondsChars(s: string): (g: string)
    ensures |g| <= |s| && g == s[..|g|]
    ensures forall k :: 0 <= k < |g| ==> IsSecondsChar(g[k])
    ensures |g| < |s| ==> !IsSecondsChar(s[|g|])
    decreases |s|
  {
    if |s| > 0 && IsSecondsChar(s[0]) then [s[0]] + SecondsChars(s[1..]) else ""
  }

  /**
   * Why `str_to_timedelta` raises: the pattern does not match (`m` is None),
   * or the seconds group is not a whole number (`float` of "1.5" is a
   * fractional duration, outside this model; of "1+2" it raises).
   */
  datatype ParseError = NoMatch | NotWholeSeconds

  /** The `:(\d[\.\d+]*)` part of the pattern: the seconds group after a colon. */
  function MatchSeconds(rest: string): (r: Option<string>)
    ensures r.Some? ==> |r.value| > 0 && Text.IsDigit(r.value[0])
    ensures r.Some? ==> Text.StartsWith(rest, ":" + r.value)
  {
    if |rest| < 2 || rest[0] != ':' || !Text.IsDigit(rest[1]) then None
    else
      var sec := [rest[1]] + SecondsChars(rest[2..]);
      assert rest[1..][..|sec|] == sec;
      Some(sec)
  }

  /** The `:(\d+):(\d[\.\d+]*)` part of the pattern: the minutes and seconds groups. */
  function MatchMinutes(rest: string): (r: Option<(string, string)>)
    ensures r.Some? ==> |r.value.0| > 0 && Text.AllDigits(r.value.0)
    ensures r.Some? ==> |r.value.1| > 0 && Text.IsDigit(r.value.1[0])
    ensures r.Some? ==> Text.StartsWith(rest, ":" + r.value.0 + ":" + r.value.1)
  {
    if |rest| == 0 || rest[0] != ':' then None
    else
      var m := Text.LeadingDigits(rest[1..]);
      if |m| == 0 then None
      else
        match MatchSeconds(rest[1..][|m|..])
        case None => None
        case Some(sec) =>
          MinutesFollow(rest, m, sec);
          Some((m, sec))
  }

  /** A colon, the minutes and a match of the seconds part are a match of the minutes part. */
  lemma MinutesFollow(rest: string, m: string, sec: string)
    requires |rest| > 0 && rest[0] == ':'
    requires |m| <= |rest| - 1 && rest[1..][..|m|] == m
    requires Text.StartsWith(rest[1..][|m|..], ":" + sec)
    ensures Text.StartsWith(rest, ":" + m + ":" + sec)
  {
    var x := ":" + sec;
    assert ":" + m + ":" + sec == [':'] + m + x;
    assert rest[..1 + |m| + |x|] == [rest[0]] + rest[1..][..|m|] + rest[1..][|m|..][..|x|];
  }

  /** The `(hours, minutes, seconds)` groups of `(\d+):(\d+):(\d[\.\d+]*)` matched at the start of `s`. */
  function MatchGroups(s: string): (r: Option<(string, string, string)>)
    ensures r.Some? ==> |r.value.0| > 0 && Text.AllDigits(r.value.0)
    ensures r.Some? ==> |r.value.1| > 0 && Text.AllDigits(r.value.1)
    ensures r.Some? ==> |r.value.2| > 0 && Text.IsDigit(r.value.2[0])
    ensures r.Some? ==> Text.StartsWith(s, r.value.0 + ":" + r.value.1 + ":" + r.value.2)
    ensures |Text.LeadingDigits(s)| == 0 || |Text.LeadingDigits(s)| == |s| ==> r.None?
  {
    var h := Text.LeadingDigits(s);
    if |h| == 0 then None
    else
      match MatchMinutes(s[|h|..])
      case None => None
      case Some((m, sec)) =>
        GroupsFollow(s, h, m, sec);
        Some((h, m, sec))
  }

  /** The hours prefix followed by a match of the rest is a match of the whole. */
  lemma GroupsFollow(s: string, h: string, m: string, sec: string)
    requires |h| <= |s| && s[..|h|] == h
    requires Text.StartsWith(s[|h|..], ":" + m + ":" + sec)
    ensures Text.StartsWith(s, h + ":" + m + ":" + sec)
  {
    var x := ":" + m + ":" + sec;
    assert h + ":" + m + ":" + sec == h + x;
    assert s[..|h| + |x|] == s[..|h|] + s[|h|..][..|x|];
  }

  /** `str_to_timedelta(s)` in whole seconds. */
  function StrToDuration(s: string): (r: Result<nat, ParseError>)
    ensures MatchGroups(s).None? <==> r == Err(NoMatch)
    ensures r.Ok? ==> Text.AllDigits(MatchGroups(s).value.2)
    ensures r.Ok? ==> var g := MatchGroups(s).value;
      r.value == Text.ParseNat(g.0) * 3600 + Text.ParseNat(g.1) * 60 + Text.ParseNat(g.2)
  {
    match MatchGroups(s)
    case None => Err(NoMatch)
    case Some((h, m, sec)) =>
      if !Text.AllDigits(sec) then Err(NotWholeSeconds)
      else Ok(Text.ParseNat(h) * 3600 + Text.ParseNat(m) * 60 + Text.ParseNat(sec))
  }

  /** Hours, minutes and seconds reassemble the number they were taken from. */
  lemma ClockParts(secs: nat)
    requires secs < SecondsPerDay
    ensures secs / 3600 * 3600 + secs / 60 % 60 * 60 + secs % 60 == secs
    ensures secs / 60 % 60 < 60 && secs % 60 < 60 && secs / 3600 < 24
  {
  }

  /** A digit string after a colon is the seconds group, whole. */
  lemma MatchSecondsDigits(sc: string)
    requires |sc| > 0 && Text.AllDigits(sc)
    ensures MatchSeconds(":" + sc) == Some(sc)
  {
    var rest := ":" + sc;
    assert rest[1] == sc[0] && rest[2..] == sc[1..];
    SecondsCharsOfDigits(sc[1..]);
    assert [sc[0]] + sc[1..] == sc;
  }

  /** Two digit strings each after a colon are the minutes and seconds groups. */
  lemma MatchMinutesDigits(m: string, sc: string)
    requires |m| > 0 && Text.AllDigits(m)
    requires |sc| > 0 && Text.AllDigits(sc)
    ensures MatchMinutes(":" + m + ":" + sc) == Some((m, sc))
  {
    var rest := ":" + m + ":" + sc;
    var tail := ":" + sc;
    assert rest[1..] == m + tail;
    Text.LeadingDigitsOfConcat(m, tail);
    assert (m + tail)[|m|..] == tail;
    MatchSecondsDigits(sc);
  }

  /** Three digit strings joined by colons match the pattern with exactly those groups. */
  lemma MatchClock(h: string, m: string, sc: string)
    requires |h| > 0 && Text.AllDigits(h)
    requires |m| > 0 && Text.AllDigits(m)
    requires |sc| > 0 && Text.AllDigits(sc)
    ensures MatchGroups(h + ":" + m + ":" + sc) == Some((h, m, sc))
  {
    var rest := ":" + m + ":" + sc;
    assert h + ":" + m + ":" + sc == h + rest;
    Text.LeadingDigitsOfConcat(h, rest);
    assert (h + rest)[|h|..] == rest;
    MatchMinutesDigits(m, sc);
  }

  /** The groups of the string `save_alarm` writes for a duration under a day. */
  lemma MatchClockString(secs: nat)
    requires secs < SecondsPerDay
    ensures MatchGroups(ClockString(secs))
      == Some((Text.NatToString(secs / 3600), Text.ZeroPad2(secs / 60 % 60), Text.ZeroPad2(secs % 60)))
  {
    MatchClock(Text.NatToString(secs / 3600), Text.ZeroPad2(secs / 60 % 60), Text.ZeroPad2(secs % 60));
  }

  /** A digit string is consumed whole by `[\.\d+]*`. */
  lemma {:induction false} SecondsCharsOfDigits(d: string)
    requires Text.AllDigits(d)
    ensures SecondsChars(d) == d
    decreases |d|
  {
    if |d| > 0 {
      SecondsCharsOfDigits(d[1..]);
      assert d == [d[0]] + d[1..];
    }
  }

  /** `str_to_timedelta(str(td)) == td` for every whole-second duration under a day. */
  lemma DurationRoundTrip(secs: nat)
    requires secs < SecondsPerDay
    ensures StrToDuration(DurationString(secs)) == Ok(secs)
  {
    var hours, minutes, seconds := secs / 3600, secs / 60 % 60, secs % 60;
    ClockParts(secs);
    var h, m, sc := Text.NatToString(hours), Text.ZeroPad2(minutes), Text.ZeroPad2(seconds);
    var s := DurationString(secs);
    assert s == h + ":" + m + ":" + sc;
    Text.ParseNatToString(hours);
    Text.ParseZeroPad2(minutes);
    Text.ParseZeroPad2(seconds);
    MatchClock(h, m, sc);
    ReadGroups(s, h, m, sc);
  }

  /** A match whose seconds group is all digits reads as a whole number of seconds. */
  lemma ReadGroups(s: string, h: string, m: string, sc: string)
    requires MatchGroups(s) == Some((h, m, sc)) && Text.AllDigits(sc)
    ensures StrToDuration(s) == Ok(Text.ParseNat(h) * 3600 + Text.ParseNat(m) * 60 + Text.ParseNat(sc))
  {
    var r := StrToDuration(s);
    assert r.Ok? && MatchGroups(s).value == (h, m, sc);
  }

  /** A duration of a day or more is written as `"N day(s), ..."`, which the pattern rejects. */
  lemma LongDurationUnreadable(secs: nat)
    requires secs >= SecondsPerDay
    ensures StrToDuration(DurationString(secs)) == Err(NoMatch)
  {
    var s := DurationString(secs);
    var h := Text.LeadingDigits(s);
    assert s[|h|..][0] == ' ';
  }

  // ---------------------------------------------------------------------------
  // TimerMixin
  // ---------------------------------------------------------------------------

  /** The duration `timedelta(hours=h, minutes=m, seconds=s)` in microseconds. */
  function Microseconds(h: nat, m: nat, s: nat): nat
  {
    (h * 3600 + m * 60 + s) * MicrosPerSecond
  }

  /** `start_timer(h, m, s)` at instant `now`: the timer starts and the icon turns active. */
  function StartTimer(t: Timer, h: nat, m: nat, s: nat, now: int): (r: Timer)
    ensures IsActive(r) && r.icon == ActiveIcon
    ensures r.start == Some(now)
    ensures r.duration.value == (h * 3600 + m * 60 + s) * MicrosPerSecond
    ensures r.discount == t.discount && r.popup == t.popup
  {
    Timer(Some(now), Some(Microseconds(h, m, s)), t.discount, ActiveIcon, t.popup)
  }

  /** The `timedelta` field `save_alarm` writes: the duration in whole seconds. */
  function SavedDuration(t: Timer): (s: string)
    requires IsActive(t) && t.duration.value >= 0 && t.duration.value % MicrosPerSecond == 0
  {
    DurationString(t.duration.value / MicrosPerSecond)
  }

  /** `init_saved_alarm` for a non-empty file: the restored timer, or the error `str_to_timedelta` raises. */
  function LoadSaved(t: Timer, start: int, saved: string): (r: Result<Timer, ParseError>)
    ensures StrToDuration(saved).Err? <==> r.Err?
    ensures r.Ok? ==> IsActive(r.value) && r.value.start == Some(start) && r.value.icon == ActiveIcon
    ensures r.Ok? ==> r.value.duration.value == StrToDuration(saved).value * MicrosPerSecond
  {
    match StrToDuration(saved)
    case Err(e) => Err(e)
    case Ok(secs) => Ok(Timer(Some(start), Some(secs * MicrosPerSecond), t.discount, ActiveIcon, t.popup))
  }

  lemma WholeSeconds(secs: nat)
    ensures secs * MicrosPerSecond / MicrosPerSecond == secs
    ensures secs * MicrosPerSecond % MicrosPerSecond == 0
  {
  }

  /** A timer started from the spin boxes and saved is restored with the same start and duration. */
  lemma SaveLoadRoundTrip(t: Timer, h: nat, m: nat, s: nat, now: int)
    requires h * 3600 + m * 60 + s < SecondsPerDay
    ensures var started := StartTimer(t, h, m, s, now);
      LoadSaved(t, now, SavedDuration(started)) == Ok(started)
  {
    var secs := h * 3600 + m * 60 + s;
    var started := StartTimer(t, h, m, s, now);
    WholeSeconds(secs);
    assert started.duration.value == secs * MicrosPerSecond;
    assert SavedDuration(started) == DurationString(secs);
    DurationRoundTrip(secs);
    var loaded := LoadSaved(t, now, DurationString(secs));
    assert loaded.value.duration == started.duration;
  }

  /** The countdown `idle` shows for `td.seconds` seconds to go. */
  function Countdown(secs: nat): (d: Discount)
    ensures d.hours < 24 && d.minutes < 60 && d.seconds < 60
  {
    Discount(secs / 3600 % 24, secs / 60 % 60, secs % 60)
  }

  /** Under a day, the countdown reassembles the remaining seconds exactly. */
  lemma CountdownExact(secs: nat)
    requires secs < SecondsPerDay
    ensures var d := Countdown(secs); d.hours * 3600 + d.minutes * 60 + d.seconds == secs
  {
    ClockParts(secs);
  }

  /** `timedelta.seconds` of a positive span: whole seconds, days removed. */
  function SecondsField(micros: nat): (s: nat)
    ensures s < SecondsPerDay
    ensures micros < SecondsPerDay * MicrosPerSecond ==> s == micros / MicrosPerSecond
  {
    micros / MicrosPerSecond % SecondsPerDay
  }

  /**
   * One call of `idle` at instant `now`, with the menu open or not: the new
   * timer state and the clock text `update_clock` shows, if it runs.
   */
  function Idle(t: Timer, now: int, menuVisible: bool): (r: (Timer, Option<string>))
    ensures !IsActive(t) ==> r == (t, None)
    ensures IsActive(t) && t.duration.value > now - t.start.value ==>
      var rest := t.duration.value - (now - t.start.value);
      r.0 == t.(discount := Countdown(SecondsField(rest)))
    ensures IsActive(t) && t.duration.value <= now - t.start.value ==>
      r.0 == Timer(None, None, ZeroDiscount, UrgentIcon, true)
    ensures IsActive(t) ==> r.1 == (if menuVisible then Some(ClockText(r.0)) else None)
  {
    if !IsActive(t) then (t, None)
    else
      var elapsed := now - t.start.value;
      var next :=
        if t.duration.value > elapsed then
          t.(discount := Countdown(SecondsField(t.duration.value - elapsed)))
        else
          Timer(None, None, ZeroDiscount, UrgentIcon, true);
      (next, if menuVisible then Some(ClockText(next)) else None)
  }

  /** While time remains, `idle` keeps the timer and shows exactly the remaining whole seconds (under a day). */
  lemma IdleShowsRemaining(t: Timer, now: int, menuVisible: bool)
    requires IsActive(t)
    requires 0 < t.duration.value - (now - t.start.value) < SecondsPerDay * MicrosPerSecond
    ensures var d := Idle(t, now, menuVisible).0.discount;
      var rest := (t.duration.value - (now - t.start.value)) / MicrosPerSecond;
      d.hours * 3600 + d.minutes * 60 + d.seconds == rest
    ensures IsActive(Idle(t, now, menuVisible).0)
  {
    var rest := t.duration.value - (now - t.start.value);
    CountdownExact(SecondsField(rest));
  }

  /** Once the alarm has fired, the next `idle` does nothing: the alarm fires once. */
  lemma IdleFiresOnce(t: Timer, now: int, later: int, menuVisible: bool)
    requires IsActive(t) && t.duration.value <= now - t.start.value
    ensures var fired := Idle(t, now, menuVisible).0;
      !IsActive(fired) && Idle(fired, later, menuVisible).0 == fired
  {
  }

  /** `update_clock`: the countdown while a timer runs, the placeholder otherwise. */
  function ClockText(t: Timer): (s: string)
    ensures !IsActive(t) ==> s == "X:YY:ZZ"
    ensures IsActive(t) && t.discount.hours < 100 && t.discount.minutes < 100 && t.discount.seconds < 100 ==>
      |s| == 8 && s[2] == ':' && s[5] == ':'
  {
    if IsActive(t) then
      Text.SpacePad2(t.discount.hours) + ":" + Text.ZeroPad2(t.discount.minutes) + ":" + Text.ZeroPad2(t.discount.seconds)
    else "X:YY:ZZ"
  }

  /** The hours field, space-padded to two characters, reads back after `lstrip`. */
  lemma SpacePadReadsBack(n: nat)
    requires n < 100
    ensures Text.LStrip(Text.SpacePad2(n)) == Text.NatToString(n)
    ensures Text.ParseNat(Text.LStrip(Text.SpacePad2(n))) == n
  {
    var d := Text.NatToString(n);
    Text.ParseNatToString(n);
    assert !Text.IsSpace(d[0]);
    assert Text.LStrip(d) == d;
    if n < 10 {
      var p := Text.SpacePad2(n);
      assert p == " " + d && p[1..] == d;
      assert Text.LStrip(p) == Text.LStrip(p[1..]);
    }
  }

  /** The three two-character fields of `HH:MM:SS` sit at positions 0, 3 and 6. */
  lemma ClockSlices(a: string, b: string, c: string)
    requires |a| == 2 && |b| == 2 && |c| == 2
    ensures var s := a + ":" + b + ":" + c;
            |s| == 8 && s[..2] == a && s[3..5] == b && s[6..] == c
  {
    var s := a + ":" + b + ":" + c;
    assert s[..2] == a by { assert forall i :: 0 <= i < 2 ==> s[i] == a[i]; }
    assert s[3..5] == b by { assert forall i :: 0 <= i < 2 ==> s[3 + i] == b[i]; }
    assert s[6..] == c by { assert forall i :: 0 <= i < 2 ==> s[6 + i] == c[i]; }
  }

  /** The running clock text reads back as the countdown it shows. */
  lemma ClockTextReadsBack(t: Timer)
    requires IsActive(t) && t.discount.hours < 24 && t.discount.minutes < 60 && t.discount.seconds < 60
    ensures var s := ClockText(t);
      Text.AllDigits(Text.LStrip(s[..2])) && Text.ParseNat(Text.LStrip(s[..2])) == t.discount.hours
      && Text.AllDigits(s[3..5]) && Text.ParseNat(s[3..5]) == t.discount.minutes
      && Text.AllDigits(s[6..]) && Text.ParseNat(s[6..]) == t.discount.seconds
  {
    var s := ClockText(t);
    var d := t.discount;
    var hh, mm, ss := Text.SpacePad2(d.hours), Text.ZeroPad2(d.minutes), Text.ZeroPad2(d.seconds);
    assert s == hh + ":" + mm + ":" + ss;
    ClockSlices(hh, mm, ss);
    Text.ParseZeroPad2(d.minutes);
    Text.ParseZeroPad2(d.seconds);
    SpacePadReadsBack(d.hours);
  }
}

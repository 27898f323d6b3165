/**
 * `parse_time_input` (free text to `H:MM`) and `validate_time` (range, closed hours and,
 * for a reservation today, times that have already passed).
 */
module TimeValidation {
  import opened Wrappers
  import opened Text
  import opened Calendar
  import opened Strptime

  /** The reference clock: today's date and the current hour and minute. */
  datatype Clock = Clock(today: Date, hour: int, minute: int)

  predicate ValidClock(c: Clock) {
    IsValid(c.today) && 0 <= c.hour <= 23 && 0 <= c.minute <= 59
  }

  /** `f"{hour:02d}:{minute:02d}"`. */
  function ClockText(hour: nat, minute: nat): string {
    Padded(hour, 2) + ":" + Padded(minute, 2)
  }

  /** `^\d{1,2}:\d{2}$` (the text has been stripped, so `$` can only match at the very end). */
  predicate IsClockText(v: string) {
    (|v| == 4 && IsDigit(v[0]) && v[1] == ':' && AllDigits(v[2..]))
    || (|v| == 5 && AllDigits(v[..2]) && v[2] == ':' && AllDigits(v[3..]))
  }

  /** The number of digits at the start of `v`. */
  function DigitRun(v: string, i: nat): (n: nat)
    requires i <= |v|
    ensures i + n <= |v| && AllDigits(v[i..i + n])
    ensures i + n < |v| ==> !IsDigit(v[i + n])
    decreases |v| - i
  {
    if i < |v| && IsDigit(v[i]) then
      var n := DigitRun(v, i + 1);
      assert v[i..i + 1 + n] == [v[i]] + v[i + 1..i + 1 + n];
      1 + n
    else 0
  }

  /** A time read by `^(\d{1,2})(?::(\d{2}))?\s*(am|pm)$`: the hour and minute as written, and whether it was "pm". */
  datatype TwelveHour = TwelveHour(hour: nat, minute: nat, pm: bool)

  /**
   * The match of `^(\d{1,2})(?::(\d{2}))?\s*(am|pm)$`. The hour takes every leading digit
   * (there must be one or two); a ':' after it must be followed by exactly two digits; then
   * any whitespace and "am" or "pm" to the end.
   */
  function MatchTwelveHour(v: string): (r: Option<TwelveHour>)
    ensures r.Some? ==> r.value.hour < 100 && r.value.minute < 100
  {
    var n := DigitRun(v, 0);
    if n < 1 || n > 2 then None
    else
      DigitsValueBound(v[..n]);
      var hour := DigitsValue(v[..n]);
      var hasMinutes := n < |v| && v[n] == ':';
      if hasMinutes && !(n + 3 <= |v| && AllDigits(v[n + 1..n + 3])) then None
      else
        var minute := if hasMinutes then (DigitsValueBound(v[n + 1..n + 3]); DigitsValue(v[n + 1..n + 3])) else 0;
        var p := if hasMinutes then n + 3 else n;
        var q := p + SpaceRun(v, p);
        if v[q..] == "am" then Some(TwelveHour(hour, minute, false))
        else if v[q..] == "pm" then Some(TwelveHour(hour, minute, true))
        else None
  }

  /** The 24-hour hour of a 12-hour reading: "pm" adds 12 unless the hour is 12; "12am" is hour 0. */
  function To24(t: TwelveHour): nat {
    if t.pm && t.hour != 12 then t.hour + 12
    else if !t.pm && t.hour == 12 then 0
    else t.hour
  }

  /** `^(\d{1,2})$`. */
  predicate IsBareHour(v: string) {
    1 <= |v| <= 2 && AllDigits(v)
  }

  /** The hour a bare number stands for: 1 to 9 are taken as afternoon or evening hours. */
  function BareHour(h: nat): nat {
    if 1 <= h <= 9 then h + 12 else h
  }

  /** `parse_time_input(value)`: the normalised time, or `None` when no case applies. */
  function ParseTimeInput(value: string): (r: Option<string>)
    ensures r.Some? ==> |r.value| >= 4 && r.value[|r.value| - 3] == ':' && AllDigits(r.value[|r.value| - 2..])
  {
    var v := Strip(Lower(value));
    if IsClockText(v) then
      assert v[|v| - 2..] == (if |v| == 4 then v[2..] else v[3..]);
      Some(v)
    else match MatchTwelveHour(v)
      case Some(t) => ClockTextTail(To24(t), t.minute); Some(ClockText(To24(t), t.minute))
      case None =>
        if IsBareHour(v) then ClockTextTail(BareHour(DigitsValue(v)), 0); Some(ClockText(BareHour(DigitsValue(v)), 0))
        else None
  }

  /** `f"{hour:02d}:{minute:02d}"` ends in ':' and two digits when the minute is below 100. */
  lemma ClockTextTail(hour: nat, minute: nat)
    requires minute < 100
    ensures var c := ClockText(hour, minute);
      |c| >= 5 && c[|c| - 3] == ':' && AllDigits(c[|c| - 2..])
  {
    var c := ClockText(hour, minute);
    PaddedTwo(minute);
    assert |Padded(hour, 2)| >= 2;
    assert c[|c| - 2..] == Padded(minute, 2);
  }

  /** The outcome of `validate_time`: accepted, or the message to show. */
  datatype TimeCheck = TimeAccepted | TimeRejected(message: string)

  const ClosedHoursMessage := "Sorry, I can't make reservations between 2 AM and 6 AM. Please enter a valid dining time."
  const TimePassedMessage := "Sorry, that time has already passed today. Please enter a future time."

  function InvalidTimeMessage(value: string): string {
    "Sorry, '" + value + "' is not a valid time."
  }

  /** Hours the restaurant is closed: 2 to 6 inclusive, so 06:59 is still closed. */
  predicate IsClosedHour(h: int) { 2 <= h <= 6 }

  /** The hour and minute of `value` when it is two `int()`-readable parts around one ':', in range. */
  function ClockFields(value: string): (r: Option<(int, int)>)
    ensures r.Some? ==> 0 <= r.value.0 <= 23 && 0 <= r.value.1 <= 59
    ensures ':' !in value ==> r.None?
    ensures r.Some? ==> |Split(value, ':')| == 2
  {
    var parts := Split(value, ':');
    if |parts| != 2 then None
    else match (ParseInt(parts[0]), ParseInt(parts[1]))
      case (Some(h), Some(m)) => if h < 0 || h > 23 || m < 0 || m > 59 then None else Some((h, m))
      case _ => None
  }

  /** `dining_date` holds today's date: it is non-empty and `strptime(..., '%Y-%m-%d')` reads it as `today`. */
  predicate DateIsToday(diningDate: Option<string>, today: Date) {
    diningDate.Some? && diningDate.value != "" && ParseDate(diningDate.value, IsoFormat) == Some(today)
  }

  /** hour:minute is not later than the clock. */
  predicate NotLater(h: int, m: int, clock: Clock) {
    h < clock.hour || (h == clock.hour && m <= clock.minute)
  }

  /** `validate_time(value, dining_date)` at the time `clock`. */
  function CheckTime(value: string, diningDate: Option<string>, clock: Clock): (r: TimeCheck)
    ensures r.TimeAccepted? ==> ClockFields(value).Some? && !IsClosedHour(ClockFields(value).value.0)
    ensures ClockFields(value).None? ==> r == TimeRejected(InvalidTimeMessage(value))
  {
    match ClockFields(value)
    case None => TimeRejected(InvalidTimeMessage(value))
    case Some((h, m)) =>
      if IsClosedHour(h) then TimeRejected(ClosedHoursMessage)
      else if DateIsToday(diningDate, clock.today) && NotLater(h, m, clock) then TimeRejected(TimePassedMessage)
      else TimeAccepted
  }
}

/** What `parse_time_input` and `validate_time` promise, and how the two fit together. */
module TimeFacts {
  import opened Wrappers
  import opened Text
  import opened Calendar
  import opened Strptime
  import opened StrptimeFacts
  import opened TimeValidation

  /** The digit run starting at `i` ends exactly where the digits do. */
  lemma {:induction false} DigitRunExact(v: string, i: nat, k: nat)
    requires i + k <= |v| && AllDigits(v[i..i + k])
    requires i + k < |v| ==> !IsDigit(v[i + k])
    ensures DigitRun(v, i) == k
    decreases k
  {
    if k > 0 {
      assert IsDigit(v[i..i + k][0]);
      assert v[i + 1..i + k] == v[i..i + k][1..];
      DigitRunExact(v, i + 1, k - 1);
    }
  }

  /** A digit run is at least as long as any run of digits it starts. */
  lemma {:induction false} DigitRunAtLeast(v: string, i: nat, k: nat)
    requires i + k <= |v| && AllDigits(v[i..i + k])
    ensures DigitRun(v, i) >= k
    decreases k
  {
    if k > 0 {
      assert IsDigit(v[i..i + k][0]);
      assert v[i + 1..i + k] == v[i..i + k][1..];
      DigitRunAtLeast(v, i + 1, k - 1);
    }
  }

  /** `ClockText(h, m)` is two digits, ':' and two digits whenever both numbers are below 100. */
  lemma ClockTextLayout(h: nat, m: nat)
    requires h < 100 && m < 100
    ensures var t := ClockText(h, m);
      |t| == 5 && t[..2] == Padded(h, 2) && t[2] == ':' && t[3..] == Padded(m, 2)
      && AllDigits(t[..2]) && AllDigits(t[3..]) && IsClockText(t)
  {
    PaddedTwo(h);
    PaddedTwo(m);
  }

  /** A clock text is already normal: lower-casing and stripping leave it alone. */
  lemma ClockTextIsNormal(v: string)
    requires IsClockText(v)
    ensures Strip(Lower(v)) == v
  {
    forall i | 0 <= i < |v|
      ensures !IsSpace(v[i]) && !('A' <= v[i] <= 'Z')
    {
      if |v| == 4 && i >= 2 { assert v[2..][i - 2] == v[i]; }
      if |v| == 5 && i < 2 { assert v[..2][i] == v[i]; }
      if |v| == 5 && i >= 3 { assert v[3..][i - 3] == v[i]; }
    }
    LowerNothing(v);
    StripNothing(v);
  }

  /** `HH:MM` (or `H:MM`) passes through `parse_time_input` unchanged. */
  lemma ClockTextPassesThrough(v: string)
    requires IsClockText(v)
    ensures ParseTimeInput(v) == Some(v)
  {
    ClockTextIsNormal(v);
  }

  /** A three-digit hour, as "88pm" to "99pm" produce, is read back by no rule. */
  lemma LongClockTextUnread(h: nat, m: nat)
    requires 100 <= h < 1000 && m < 100
    ensures |ClockText(h, m)| == 6 && ParseTimeInput(ClockText(h, m)) == None
  {
    var t := ClockText(h, m);
    LongClockTextLayout(h, m);
    hide ParseTimeInput, ClockText, Padded;
    DigitRunAtLeast(t, 0, 3);
    forall i | 0 <= i < |t|
      ensures !IsSpace(t[i]) && !('A' <= t[i] <= 'Z')
    {
      if i < 3 { assert t[i] == t[0..3][i]; }
      if i > 3 { assert t[i] == t[4..][i - 4]; }
    }
    LowerNothing(t);
    StripNothing(t);
    LongRunUnread(t);
  }

  /** `ClockText(h, m)` for a three-digit hour: three digits, ':' and two digits. */
  lemma LongClockTextLayout(h: nat, m: nat)
    requires 100 <= h < 1000 && m < 100
    ensures var t := ClockText(h, m);
      |t| == 6 && AllDigits(t[0..3]) && t[3] == ':' && AllDigits(t[4..])
  {
    var t := ClockText(h, m);
    PaddedTwo(m);
    assert |NatText(h)| == 3;
    assert t[0..3] == Padded(h, 2) && t[4..] == Padded(m, 2);
  }

  /** A normal text of six characters that starts with three digits is read by no rule. */
  lemma LongRunUnread(t: string)
    requires Strip(Lower(t)) == t && |t| == 6 && DigitRun(t, 0) >= 3
    ensures ParseTimeInput(t) == None
  {
    hide Strip, Lower, DigitRun;
  }

  /**
   * `parse_time_input` is idempotent exactly on its outputs of at most five characters. The
   * only longer outputs come from "88pm" to "99pm", which give a three-digit hour ("111:00")
   * that no rule of `parse_time_input` reads back.
   */
  lemma ParseTimeIdempotent(value: string)
    requires ParseTimeInput(value).Some?
    ensures var t := ParseTimeInput(value).value;
      ParseTimeInput(t) == Some(t) <==> |t| <= 5
  {
    OutputShape(value);
    hide ParseTimeInput;
    var t := ParseTimeInput(value).value;
    if IsClockText(t) {
      ClockTextPassesThrough(t);
    } else {
      var h: nat, m: nat :| 100 <= h < 1000 && m < 100 && t == ClockText(h, m);
      LongClockTextUnread(h, m);
    }
  }

  /** Every output of `parse_time_input` is a clock text, or else the text of a three-digit hour. */
  lemma OutputShape(value: string)
    requires ParseTimeInput(value).Some?
    ensures var t := ParseTimeInput(value).value;
      IsClockText(t) || exists h: nat, m: nat :: 100 <= h < 1000 && m < 100 && t == ClockText(h, m)
  {
    hide MatchTwelveHour, Strip, Lower;
    var v := Strip(Lower(value));
    var t := ParseTimeInput(value).value;
    if IsClockText(v) {
    } else if MatchTwelveHour(v).Some? {
      var th := MatchTwelveHour(v).value;
      var h := To24(th);
      assert t == ClockText(h, th.minute);
      assert th.hour < 100 && th.minute < 100 && h <= th.hour + 12;
      if h < 100 {
        ClockTextLayout(h, th.minute);
      }
    } else {
      DigitsValueBound(v);
      var h := BareHour(DigitsValue(v));
      assert t == ClockText(h, 0);
      ClockTextLayout(h, 0);
    }
  }

  function Period(pm: bool): string { if pm then "pm" else "am" }

  /** The text "H[:MM][ ]am|pm" for an hour written without leading zero. */
  function TwelveHourText(h: nat, minute: Option<nat>, gap: bool, pm: bool): string
    requires minute.Some? ==> minute.value < 100
  {
    NatText(h) + (if minute.Some? then ":" + Padded(minute.value, 2) else "")
      + (if gap then " " else "") + Period(pm)
  }

  /** The pieces of a 12-hour text: an hour of one or two digits, optionally ':' and two digits, an optional space, then the period. */
  predicate TwelveHourPieces(hs: string, mid: string, sp: string, per: string) {
    1 <= |hs| <= 2 && AllDigits(hs)
    && (mid == [] || (|mid| == 3 && mid[0] == ':' && AllDigits(mid[1..])))
    && (sp == [] || sp == " ")
    && (per == "am" || per == "pm")
  }

  /** A 12-hour text is already lower case and stripped. */
  lemma TwelveHourTextIsNormal(hs: string, mid: string, sp: string, per: string)
    requires TwelveHourPieces(hs, mid, sp, per)
    ensures Strip(Lower(hs + mid + sp + per)) == hs + mid + sp + per
  {
    var t := hs + mid + sp + per;
    var n := |hs|;
    var p := n + |mid|;
    forall i | 0 <= i < |t|
      ensures !('A' <= t[i] <= 'Z')
    {
      if i < n { assert t[i] == hs[i]; }
      else if i == n && mid != [] { assert t[i] == ':'; }
      else if i < p { assert t[i] == mid[1..][i - n - 1]; }
      else if i < p + |sp| { assert t[i] == ' '; }
      else { assert t[i] == per[i - p - |sp|]; }
    }
    LowerNothing(t);
    assert !IsSpace(t[0]) by { assert t[0] == hs[0]; }
    assert t[|t| - 1] == 'm';
    StripNothing(t);
  }

  /** A 12-hour text ends in a letter, so it is not an `H:MM` clock text. */
  lemma TwelveHourTextNotClock(t: string)
    requires |t| >= 1 && t[|t| - 1] == 'm'
    ensures !IsClockText(t)
  {
    if |t| == 4 { assert t[2..][1] == 'm'; }
    if |t| == 5 { assert t[3..][1] == 'm'; }
  }

  /** The 12-hour pattern reads the hour, the minutes (0 when absent) and the period back from the pieces. */
  lemma TwelveHourTextMatches(hs: string, mid: string, sp: string, per: string)
    requires TwelveHourPieces(hs, mid, sp, per)
    ensures MatchTwelveHour(hs + mid + sp + per)
      == Some(TwelveHour(DigitsValue(hs), if mid == [] then 0 else DigitsValue(mid[1..]), per == "pm"))
  {
    var t := hs + mid + sp + per;
    var n := |hs|;
    var p := n + |mid|;
    var q := p + |sp|;
    hide MatchTwelveHour;
    assert t[..n] == hs;
    DigitRunExact(t, 0, n);
    if mid != [] {
      assert t[n] == ':';
      assert t[n + 1..n + 3] == mid[1..];
    } else {
      assert t[n] != ':';
    }
    assert SpaceRun(t, p) == |sp| by {
      if sp != [] { assert t[p] == ' ' && !IsSpace(t[p + 1]); }
      else { assert !IsSpace(t[p]); }
    }
    assert t[q..] == per;
    MatchReads(t, n, mid != [], |sp|);
  }

  /**
   * How `MatchTwelveHour` reads a text: one or two leading digits, then ':' and two digits
   * exactly when `minutes`, then `s` spaces and a period to the end.
   */
  lemma MatchReads(t: string, n: nat, minutes: bool, s: nat)
    requires 1 <= n <= 2 && n < |t| && DigitRun(t, 0) == n
    requires t[n] == ':' <==> minutes
    requires minutes ==> n + 3 <= |t| && AllDigits(t[n + 1..n + 3])
    requires var p := if minutes then n + 3 else n;
      p + s <= |t| && SpaceRun(t, p) == s && (t[p + s..] == "am" || t[p + s..] == "pm")
    ensures var p := if minutes then n + 3 else n;
      MatchTwelveHour(t)
      == Some(TwelveHour(DigitsValue(t[..n]), if minutes then DigitsValue(t[n + 1..n + 3]) else 0, t[p + s..] == "pm"))
  {
  }

  /** The pieces `TwelveHourText` is made of. */
  lemma TwelveHourTextPieces(h: nat, m: nat, minute: Option<nat>, gap: bool, pm: bool)
    requires h < 100 && m < 100 && minute.GetOr(0) == m && (minute.Some? ==> minute.value < 100)
    ensures var mid := if minute.Some? then ":" + Padded(m, 2) else "";
      TwelveHourPieces(NatText(h), mid, if gap then " " else "", Period(pm))
      && TwelveHourText(h, minute, gap, pm) == NatText(h) + mid + (if gap then " " else "") + Period(pm)
      && (mid != [] ==> DigitsValue(mid[1..]) == m)
  {
    if minute.Some? {
      PaddedTwo(m);
      assert (":" + Padded(m, 2))[1..] == Padded(m, 2);
    }
  }

  /** Text made of 12-hour pieces is read by the 12-hour rule. */
  lemma TwelveHourPiecesParse(hs: string, mid: string, sp: string, per: string)
    requires TwelveHourPieces(hs, mid, sp, per)
    ensures var th := TwelveHour(DigitsValue(hs), if mid == [] then 0 else DigitsValue(mid[1..]), per == "pm");
      ParseTimeInput(hs + mid + sp + per) == Some(ClockText(To24(th), th.minute))
  {
    TwelveHourTextIsNormal(hs, mid, sp, per);
    TwelveHourTextNotClock(hs + mid + sp + per);
    TwelveHourTextMatches(hs, mid, sp, per);
  }

  /**
   * "7pm", "7:30 pm", "12am", "12:15pm": a 12-hour reading becomes the 24-hour `HH:MM`,
   * where "pm" adds 12 to every hour but 12 and "12am" is midnight.
   */
  lemma TwelveHourReading(h: nat, minute: Option<nat>, gap: bool, pm: bool)
    requires h < 100 && (minute.Some? ==> minute.value < 100)
    ensures ParseTimeInput(TwelveHourText(h, minute, gap, pm))
      == Some(ClockText(To24(TwelveHour(h, minute.GetOr(0), pm)), minute.GetOr(0)))
  {
    var m := minute.GetOr(0);
    TwelveHourTextPieces(h, m, minute, gap, pm);
    TwelveHourPiecesParse(NatText(h), if minute.Some? then ":" + Padded(m, 2) else "",
                          if gap then " " else "", Period(pm));
  }

  /** A bare number is already normal, is not a clock text and has no period. */
  lemma BareHourIsPlain(v: string)
    requires IsBareHour(v)
    ensures Strip(Lower(v)) == v && !IsClockText(v) && MatchTwelveHour(v) == None
  {
    hide Strip, Lower, DigitRun, MatchTwelveHour;
    DigitsArePlain(v);
    LowerNothing(v);
    StripNothing(v);
    assert v[0..|v|] == v;
    DigitRunExact(v, 0, |v|);
    NoPeriodAfterDigits(v);
  }

  /** A text of digits only has no period after its digits, so the 12-hour pattern does not match it. */
  lemma NoPeriodAfterDigits(v: string)
    requires 1 <= |v| <= 2 && DigitRun(v, 0) == |v|
    ensures MatchTwelveHour(v) == None
  {
    assert v[|v|..] == "";
  }

  /** A bare number of one or two digits is an hour on the hour, 1 to 9 meaning 13:00 to 21:00. */
  lemma BareHourReading(v: string)
    requires IsBareHour(v)
    ensures ParseTimeInput(v) == Some(ClockText(BareHour(DigitsValue(v)), 0))
  {
    BareHourIsPlain(v);
  }

  /** The concrete texts the two lemmas below speak of. */
  lemma TwelveTexts()
    ensures TwelveHourText(12, None, false, false) == "12am"
    ensures TwelveHourText(12, None, false, true) == "12pm"
    ensures TwelveHourText(99, None, false, true) == "99pm"
    ensures ClockText(0, 0) == "00:00" && ClockText(12, 0) == "12:00" && ClockText(111, 0) == "111:00"
  {
    NumberTexts();
    hide NatText, Padded;
    assert Period(false) == "am" && Period(true) == "pm";
  }

  /** The decimal texts of the numbers above. */
  lemma NumberTexts()
    ensures NatText(12) == "12" && NatText(99) == "99"
    ensures Padded(0, 2) == "00" && Padded(12, 2) == "12" && Padded(111, 2) == "111"
  {
    NatTexts();
    assert NatText(0) == "0";
    hide NatText;
  }

  lemma NatTexts()
    ensures NatText(12) == "12" && NatText(99) == "99" && NatText(111) == "111"
  {
    assert NatText(1) == "1" && NatText(9) == "9" && NatText(11) == "11";
  }

  /** Midnight and noon: "12am" is "00:00" and "12pm" is "12:00". */
  lemma MidnightAndNoon()
    ensures ParseTimeInput("12am") == Some("00:00")
    ensures ParseTimeInput("12pm") == Some("12:00")
  {
    TwelveTexts();
    TwelveHourReading(12, None, false, false);
    TwelveHourReading(12, None, false, true);
  }

  /** "99pm" becomes "111:00", which `parse_time_input` does not read back. */
  lemma NinetyNinePm()
    ensures ParseTimeInput("99pm") == Some("111:00")
    ensures ParseTimeInput("111:00") == None
  {
    TwelveTexts();
    TwelveHourReading(99, None, false, true);
    LongClockTextUnread(111, 0);
  }

  /** `validate_time` reads back every `HH:MM` that `f"{hour:02d}:{minute:02d}"` writes for a real time of day. */
  lemma ClockFieldsRoundTrip(h: nat, m: nat)
    requires h <= 23 && m <= 59
    ensures ClockFields(ClockText(h, m)) == Some((h as int, m as int))
  {
    var hs := Padded(h, 2);
    var ms := Padded(m, 2);
    PaddedTwo(h);
    PaddedTwo(m);
    assert ':' !in hs && ':' !in ms by {
      DigitsArePlain(hs);
      DigitsArePlain(ms);
    }
    SplitOnce(hs, ':', ms);
    assert ClockText(h, m) == hs + [':'] + ms;
    ParseIntDigits(hs);
    ParseIntDigits(ms);
  }

  /**
   * An hour written without its leading zero, such as "7:30", which `parse_time_input` passes
   * on unchanged, is read by `validate_time` as that hour and minute.
   */
  lemma UnpaddedClockRead(h: nat, m: nat)
    requires h <= 23 && m <= 59
    ensures var t := NatText(h) + ":" + Padded(m, 2);
      ParseTimeInput(t) == Some(t) && ClockFields(t) == Some((h as int, m as int))
  {
    hide ParseTimeInput, ClockFields, NatText, Padded;
    UnpaddedClockText(h, m);
    UnpaddedClockFields(h, m);
    ClockTextPassesThrough(NatText(h) + ":" + Padded(m, 2));
  }

  /** `str(h) + ":" + f"{m:02d}"` has the `H:MM` or `HH:MM` shape. */
  lemma UnpaddedClockText(h: nat, m: nat)
    requires h <= 23 && m <= 59
    ensures IsClockText(NatText(h) + ":" + Padded(m, 2))
  {
    var hs := NatText(h);
    var ms := Padded(m, 2);
    var t := hs + ":" + ms;
    PaddedTwo(m);
    if |hs| == 1 {
      assert t[0] == hs[0] && t[2..] == ms;
    } else {
      assert t[..2] == hs && t[3..] == ms;
    }
  }

  /** `validate_time` splits `str(h) + ":" + f"{m:02d}"` at its one ':' and reads `h` and `m`. */
  lemma UnpaddedClockFields(h: nat, m: nat)
    requires h <= 23 && m <= 59
    ensures ClockFields(NatText(h) + ":" + Padded(m, 2)) == Some((h as int, m as int))
  {
    var hs := NatText(h);
    var ms := Padded(m, 2);
    PaddedTwo(m);
    assert ':' !in hs && ':' !in ms by {
      DigitsArePlain(hs);
      DigitsArePlain(ms);
    }
    SplitOnce(hs, ':', ms);
    assert hs + ":" + ms == hs + [':'] + ms;
    ParseIntDigits(hs);
    ParseIntDigits(ms);
  }

  /** The verdict of `validate_time` on a value whose hour and minute have been read. */
  lemma CheckTimeOfFields(value: string, h: int, m: int, diningDate: Option<string>, clock: Clock)
    requires ClockFields(value) == Some((h, m))
    ensures CheckTime(value, diningDate, clock)
      == if IsClosedHour(h) then TimeRejected(ClosedHoursMessage)
         else if DateIsToday(diningDate, clock.today) && NotLater(h, m, clock) then TimeRejected(TimePassedMessage)
         else TimeAccepted
  {
  }

  /** The closed-hours and time-passed messages are told apart. */
  lemma MessagesDiffer()
    ensures ClosedHoursMessage != TimePassedMessage
  {
    assert |ClosedHoursMessage| != |TimePassedMessage|;
  }

  /** 02:00 to 06:59 are turned away with the closed-hours message, and only they are. */
  lemma ClosedHoursRejected(h: nat, m: nat, diningDate: Option<string>, clock: Clock)
    requires h <= 23 && m <= 59
    ensures CheckTime(ClockText(h, m), diningDate, clock) == TimeRejected(ClosedHoursMessage) <==> IsClosedHour(h)
  {
    ClockFieldsRoundTrip(h, m);
    CheckTimeOfFields(ClockText(h, m), h, m, diningDate, clock);
    MessagesDiffer();
  }

  /** For a reservation today, an open-hours time is accepted exactly when it is later than the clock. */
  lemma TodayNeedsLaterTime(h: nat, m: nat, clock: Clock)
    requires h <= 23 && m <= 59 && !IsClosedHour(h)
    requires ValidClock(clock) && clock.today.year <= 9999
    ensures var r := CheckTime(ClockText(h, m), Some(FormatIso(clock.today)), clock);
      (r == TimeAccepted <==> !NotLater(h, m, clock))
      && (r != TimeAccepted ==> r == TimeRejected(TimePassedMessage))
  {
    ClockFieldsRoundTrip(h, m);
    CheckTimeOfFields(ClockText(h, m), h, m, Some(FormatIso(clock.today)), clock);
    IsoRoundTrip(clock.today);
  }

  /**
   * For a reservation on another day, with no date, or with a date `strptime` cannot read, the
   * clock is not consulted: every open-hours time is accepted.
   */
  lemma OtherDayIgnoresClock(h: nat, m: nat, diningDate: Option<string>, clock: Clock)
    requires h <= 23 && m <= 59 && !IsClosedHour(h)
    requires diningDate.None? || diningDate == Some("")
      || (diningDate.Some? && ParseDate(diningDate.value, IsoFormat).None?)
      || exists d :: IsValid(d) && d.year <= 9999 && d != clock.today && diningDate == Some(FormatIso(d))
    ensures CheckTime(ClockText(h, m), diningDate, clock) == TimeAccepted
  {
    ClockFieldsRoundTrip(h, m);
    CheckTimeOfFields(ClockText(h, m), h, m, diningDate, clock);
    if diningDate.Some? && diningDate.value != "" && ParseDate(diningDate.value, IsoFormat).Some? {
      var d :| IsValid(d) && d.year <= 9999 && d != clock.today && diningDate == Some(FormatIso(d));
      IsoRoundTrip(d);
    }
  }
}

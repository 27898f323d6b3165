/**
 * Properties of `validate_date`: the special words, ISO dates read back exactly, the first
 * format that parses decides, and a date written without a year is placed in this year.
 */
module DateFacts {
  import opened Wrappers
  import opened Text
  import opened Calendar
  import opened Strptime
  import opened StrptimeFacts
  import opened DateValidation
  import opened StrptimeFormats

  /**
   * "today" and "tomorrow" (in any case, with any surrounding whitespace) are always
   * accepted, tomorrow being the next day of the calendar; the past words are always refused.
   */
  lemma SpecialWords(value: string, today: Date)
    requires IsValid(today)
    ensures Strip(Lower(value)) == "today" ==> CheckDate(value, today) == Accepted(today)
    ensures Strip(Lower(value)) == "tomorrow" ==>
      CheckDate(value, today).Accepted? && DayNumber(CheckDate(value, today).date) == DayNumber(today) + 1
    ensures Strip(Lower(value)) in PastWords ==> CheckDate(value, today) == Rejected(PastDatesMessage)
  {
    TomorrowIsNextDay(today);
  }

  /** The characters of an ISO date are digits and '-': no whitespace, no capital letters. */
  lemma IsoPlain(d: Date)
    requires IsValid(d) && d.year <= 9999
    ensures var s := FormatIso(d);
      Strip(Lower(s)) == s && |s| == 10 && IsDigit(s[0]) && s[4] == '-'
  {
    var s := FormatIso(d);
    IsoLayout(d);
    forall i | 0 <= i < |s|
      ensures IsDigit(s[i]) || s[i] == '-'
    {
      if i < 4 {
        assert s[i] == s[0..4][i];
      } else if 4 < i < 7 {
        assert s[i] == s[5..7][i - 5];
      } else if 7 < i {
        assert s[i] == s[8..10][i - 8];
      }
    }
    LowerNothing(s);
    StripNothing(s);
  }

  /**
   * A date written as `%Y-%m-%d` is read by the ISO branch: accepted as exactly that date,
   * or refused as past when it is before today.
   */
  lemma IsoAccepted(d: Date, today: Date)
    requires IsValid(today) && IsValid(d) && d.year <= 9999
    ensures CheckDate(FormatIso(d), today)
         == if Before(d, today) then Rejected(PastDatesMessage) else Accepted(d)
  {
    hide ParseDate, FirstFormat, FormatIso;
    var s := FormatIso(d);
    IsoPlain(d);
    assert s != "today" && s != "tomorrow" && s !in PastWords by {
      assert s[0] != 't' && s[0] != 'y' && s[0] != 'l';
    }
    IsoRoundTrip(d);
  }

  /** The loop over the formats returns the verdict of the first format that does not raise. */
  lemma {:induction false} FirstSuccessWins(formats: seq<Format>, value: string, today: Date, k: nat)
    requires IsValid(today) && k < |formats|
    requires forall j :: 0 <= j < k ==> TryFormat(value, formats[j], today).None?
    requires TryFormat(value, formats[k], today).Some?
    ensures FirstFormat(formats, value, today) == TryFormat(value, formats[k], today)
    decreases k
  {
    if k > 0 {
      assert TryFormat(value, formats[0], today).None?;
      forall j | 0 <= j < k - 1
        ensures TryFormat(value, formats[1..][j], today).None?
      {
        assert formats[1..][j] == formats[j + 1];
      }
      assert formats[1..][k - 1] == formats[k];
      FirstSuccessWins(formats[1..], value, today, k - 1);
    }
  }

  /** When no format parses, the loop falls through to the "not a valid date" message. */
  lemma {:induction false} NoFormatParses(formats: seq<Format>, value: string, today: Date)
    requires IsValid(today)
    requires forall j :: 0 <= j < |formats| ==> TryFormat(value, formats[j], today).None?
    ensures FirstFormat(formats, value, today).None?
    decreases |formats|
  {
    if formats != [] {
      assert TryFormat(value, formats[0], today).None?;
      forall j | 0 <= j < |formats| - 1
        ensures TryFormat(value, formats[1..][j], today).None?
      {
        assert formats[1..][j] == formats[j + 1];
      }
      NoFormatParses(formats[1..], value, today);
    }
  }

  /**
   * A date read by one of the year-less formats (and by no earlier format) is put into
   * today's year: accepted as that day of this year, or refused as past when it has gone by.
   */
  lemma YearlessTakesTodaysYear(value: string, today: Date, k: nat)
    requires IsValid(today) && k < |YearlessFormats|
    requires Strip(Lower(value)) != "today" && Strip(Lower(value)) != "tomorrow" && Strip(Lower(value)) !in PastWords
    requires ParseDate(value, IsoFormat).None?
    requires forall j :: 0 <= j < k ==> ParseDate(value, DateFormats[j]).None?
    requires ParseDate(value, DateFormats[k]).Some?
    ensures var p := ParseDate(value, DateFormats[k]).value;
      var q := Date(today.year, p.month, p.day);
      IsValid(q) ==>
        CheckDate(value, today) == if Before(q, today) then Rejected(PastDateMessage(value)) else Accepted(q)
  {
    var p := ParseDate(value, DateFormats[k]).value;
    var q := Date(today.year, p.month, p.day);
    assert DateFormats[k] == YearlessFormats[k];
    if IsValid(q) {
      forall j | 0 <= j < k
        ensures TryFormat(value, DateFormats[j], today).None?
      {
      }
      FirstSuccessWins(DateFormats, value, today, k);
    }
  }

  /** Text that no branch can read gets the "not a valid date" message naming it. */
  lemma UnreadableDate(value: string, today: Date)
    requires IsValid(today)
    requires Strip(Lower(value)) != "today" && Strip(Lower(value)) != "tomorrow" && Strip(Lower(value)) !in PastWords
    requires ParseDate(value, IsoFormat).None?
    requires forall j :: 0 <= j < |DateFormats| ==> ParseDate(value, DateFormats[j]).None?
    ensures CheckDate(value, today) == Rejected(InvalidDateMessage(value))
  {
    forall j | 0 <= j < |DateFormats|
      ensures TryFormat(value, DateFormats[j], today).None?
    {
    }
    NoFormatParses(DateFormats, value, today);
  }

  /** Text that does not start with a digit is not a `%Y-%m-%d` date. */
  lemma NotIsoWhenLetter(s: string)
    requires s != [] && !IsDigit(s[0])
    ensures ParseDate(s, IsoFormat).None?
  {
    if |s| >= 4 {
      assert s[0..4][0] == s[0];
    }
    assert Cands(Year, s, 0) == [];
    assert Match(IsoFormat, s, 0, NoFields, 0) == None;
  }

  /** A month's name, one space and `str(d)`: lower-case letters, a space and digits. */
  lemma NameDayPlain(m: nat, d: nat)
    requires 1 <= m <= 12
    ensures var value := MonthNames[m - 1] + " " + NatText(d);
      Strip(Lower(value)) == value && value[0] == MonthNames[m - 1][0]
  {
    var name := MonthNames[m - 1];
    var t := NatText(d);
    var value := name + " " + t;
    NameLayout(MonthNames, m - 1);
    forall i | 0 <= i < |value|
      ensures !('A' <= value[i] <= 'Z')
    {
      if i < |name| {
        assert value[i] == name[i];
      } else if |name| < i {
        assert value[i] == t[i - |name| - 1];
      }
    }
    LowerNothing(value);
    assert value[|value| - 1] == t[|t| - 1];
    StripNothing(value);
  }

  /**
   * `"<month name> <d>"`, such as "march 5", is read by '%B %d' and placed in today's year:
   * accepted as that day of this year, or refused as a past date when it has gone by.
   */
  lemma MonthNameDayThisYear(m: nat, d: nat, today: Date)
    requires IsValid(today) && 1 <= m <= 12 && IsValid(Date(1900, m, d)) && IsValid(Date(today.year, m, d))
    ensures var value := MonthNames[m - 1] + " " + NatText(d);
      var q := Date(today.year, m, d);
      CheckDate(value, today) == if Before(q, today) then Rejected(PastDateMessage(value)) else Accepted(q)
  {
    hide CheckDate, ParseDate, Strip, Lower, NatText, IsValid, Before;
    var value := MonthNames[m - 1] + " " + NatText(d);
    NameLayout(MonthNames, m - 1);
    NameDayPlain(m, d);
    assert value != "today" && value != "tomorrow" && value !in PastWords by {
      assert value[0] != 't' && value[0] != 'y' && value[0] != 'l';
      assert PastWords[0][0] == 'y' && PastWords[1][0] == 'l' && PastWords[2][0] == 'l';
    }
    NotIsoWhenLetter(value);
    NameDayRead(MonthName, MonthNames, m, d);
    assert DateFormats[0] == [MonthName, Spaces, DayOfMonth];
    YearlessTakesTodaysYear(value, today, 0);
  }
}

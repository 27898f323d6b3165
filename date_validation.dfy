/**
 * `validate_date`: the words "today" and "tomorrow", the past words, an ISO date, and then an
 * ordered list of month/day formats of which the first that parses decides.
 */
module DateValidation {
  import opened Wrappers
  import opened Text
  import opened Calendar
  import opened Strptime

  /** The outcome of checking a date: the date it denotes, or the message to show. */
  datatype DateCheck = Accepted(date: Date) | Rejected(message: string)

  const PastDatesMessage := "Sorry, I can't make reservations for past dates."

  function PastDateMessage(value: string): string {
    "Sorry, '" + value + "' is a past date. Please enter a future date."
  }

  function InvalidDateMessage(value: string): string {
    "Sorry, '" + value + "' is not a valid date. Please enter a valid date."
  }

  const PastWords: seq<string> := ["yesterday", "last week", "last month"]

  /** '%B %d', '%b %d', '%d %B', '%d %b': the formats without a year. */
  const YearlessFormats: seq<Format> := [
    [MonthName, Spaces, DayOfMonth], [MonthAbbrev, Spaces, DayOfMonth],
    [DayOfMonth, Spaces, MonthName], [DayOfMonth, Spaces, MonthAbbrev]]

  /** The formats tried after ISO, in order: the four above, then
      '%m/%d/%Y', '%m/%d/%y', '%B %d %Y', '%b %d %Y', '%d %B %Y', '%d %b %Y'. */
  const DateFormats: seq<Format> := YearlessFormats + [
    [MonthNumber, Lit('/'), DayOfMonth, Lit('/'), Year],
    [MonthNumber, Lit('/'), DayOfMonth, Lit('/'), ShortYear],
    [MonthName, Spaces, DayOfMonth, Spaces, Year], [MonthAbbrev, Spaces, DayOfMonth, Spaces, Year],
    [DayOfMonth, Spaces, MonthName, Spaces, Year], [DayOfMonth, Spaces, MonthAbbrev, Spaces, Year]]

  /**
   * One pass of the loop body: `None` when `strptime` or `replace` raises ValueError (the
   * loop goes on), otherwise the verdict. A year-less date is moved into today's year first.
   */
  function TryFormat(value: string, fmt: Format, today: Date): (r: Option<DateCheck>)
    requires IsValid(today)
    ensures r.Some? && r.value.Accepted? ==> IsValid(r.value.date) && !Before(r.value.date, today)
  {
    match ParseDate(value, fmt)
    case None => None
    case Some(p) =>
      if fmt in YearlessFormats then
        var q := Date(today.year, p.month, p.day);
        if !IsValid(q) then None
        else if Before(q, today) then Some(Rejected(PastDateMessage(value)))
        else Some(Accepted(q))
      else if Before(p, today) then Some(Rejected(PastDatesMessage))
      else Some(Accepted(p))
  }

  /** The verdict of the first format in `formats` that parses `value`. */
  function FirstFormat(formats: seq<Format>, value: string, today: Date): (r: Option<DateCheck>)
    requires IsValid(today)
    ensures r.Some? && r.value.Accepted? ==> IsValid(r.value.date) && !Before(r.value.date, today)
    decreases |formats|
  {
    if formats == [] then None
    else match TryFormat(value, formats[0], today)
      case Some(c) => Some(c)
      case None => FirstFormat(formats[1..], value, today)
  }

  /** `validate_date(value)` on the day `today`. */
  function CheckDate(value: string, today: Date): (r: DateCheck)
    requires IsValid(today)
    ensures r.Accepted? ==> IsValid(r.date) && !Before(r.date, today)
  {
    var word := Strip(Lower(value));
    if word == "today" then Accepted(today)
    else if word == "tomorrow" then Accepted(Tomorrow(today))
    else if word in PastWords then Rejected(PastDatesMessage)
    else match ParseDate(value, IsoFormat)
      case Some(p) => if Before(p, today) then Rejected(PastDatesMessage) else Accepted(p)
      case None =>
        match FirstFormat(DateFormats, value, today)
        case Some(c) => c
        case None => Rejected(InvalidDateMessage(value))
  }

  /** `validate_date` as the source runs it: the special words, ISO, then a loop over the formats with an early return. */
  method ValidateDate(value: string, today: Date) returns (r: DateCheck)
    requires IsValid(today)
    ensures r == CheckDate(value, today)
  {
    hide ParseDate, Strip, Lower, Tomorrow, Before, IsValid;
    var word := Strip(Lower(value));
    if word == "today" {
      return Accepted(today);
    } else if word == "tomorrow" {
      return Accepted(Tomorrow(today));
    } else if word in PastWords {
      return Rejected(PastDatesMessage);
    }
    var iso := ParseDate(value, IsoFormat);
    if iso.Some? {
      if Before(iso.value, today) {
        return Rejected(PastDatesMessage);
      }
      return Accepted(iso.value);
    }
    var found := TryFormats(value, today);
    if found.Some? {
      return found.value;
    }
    return Rejected(InvalidDateMessage(value));
  }

  /** The loop of `validate_date` over the formats: the verdict of the first that parses, returned as soon as it is found. */
  method TryFormats(value: string, today: Date) returns (r: Option<DateCheck>)
    requires IsValid(today)
    ensures r == FirstFormat(DateFormats, value, today)
  {
    hide ParseDate, Before, IsValid, PastDateMessage;
    var k := 0;
    while k < |DateFormats|
      invariant 0 <= k <= |DateFormats|
      invariant FirstFormat(DateFormats, value, today) == FirstFormat(DateFormats[k..], value, today)
    {
      var fmt := DateFormats[k];
      assert DateFormats[k..] == [fmt] + DateFormats[k + 1..];
      ghost var verdict := TryFormat(value, fmt, today);
      var parsed := ParseDate(value, fmt);
      if parsed.Some? {
        var p := parsed.value;
        if fmt in YearlessFormats {
          p := Date(today.year, p.month, p.day);
          if !IsValid(p) {
            // `replace` raised ValueError: the next format is tried
            assert verdict == None;
            k := k + 1;
            continue;
          }
          if Before(p, today) {
            assert verdict == Some(Rejected(PastDateMessage(value)));
            return Some(Rejected(PastDateMessage(value)));
          }
        }
        if Before(p, today) {
          assert verdict == Some(Rejected(PastDatesMessage));
          return Some(Rejected(PastDatesMessage));
        }
        assert verdict == Some(Accepted(p));
        return Some(Accepted(p));
      }
      assert verdict == None;
      k := k + 1;
    }
    return None;
  }
}

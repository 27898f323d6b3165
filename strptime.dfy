/**
 * Python's `datetime.strptime` for the handful of formats the dialog engine uses.
 *
 * CPython turns a format into a regular expression (case-insensitive, each run of spaces
 * in the format becoming `\s+`), takes the FIRST match of that expression at the start of
 * the text, fails with "unconverted data remains" when the match does not reach the end,
 * and then builds the date, which fails when the day does not exist in that month.
 * `Match` below is that regular expression's backtracking search: the alternatives of
 * each numeric directive are tried in the order CPython's pattern lists them. The month
 * names are tried in calendar order, while CPython lists them longest first. The result is
 * the same, because at most one month's name can match at a position.
 */
module Strptime {
  import opened Wrappers
  import opened Text
  import opened Calendar

  /** One element of a format: a literal character, a run of spaces, or a directive. */
  datatype Piece =
    | Lit(c: char)     // the character itself
    | Spaces           // a space in the format: `\s+`
    | Year             // %Y  `\d\d\d\d`
    | ShortYear        // %y  `\d\d`
    | MonthNumber      // %m  `1[0-2]|0[1-9]|[1-9]`
    | DayOfMonth       // %d  `3[01]|[12]\d|0[1-9]|[1-9]| [1-9]`
    | MonthName        // %B  a full English month name
    | MonthAbbrev      // %b  an abbreviated English month name
    | Hour             // %H  `2[0-3]|[0-1]\d|\d`
    | Minute           // %M  `[0-5]\d|\d`

  type Format = seq<Piece>

  /** A way for one piece to match: the value it denotes and how many characters it takes. */
  datatype Cand = Cand(value: int, len: nat)

  /** The fields a match has filled in so far. */
  datatype Fields = Fields(year: Option<int>, month: Option<int>, day: Option<int>,
                           hour: Option<int>, minute: Option<int>)

  const NoFields := Fields(None, None, None, None, None)

  datatype Matched = Matched(fields: Fields, end: nat)

  const MonthNames: seq<string> := ["january", "february", "march", "april", "may", "june", "july",
                                     "august", "september", "october", "november", "december"]
  const MonthAbbrevs: seq<string> := ["jan", "feb", "mar", "apr", "may", "jun", "jul",
                                       "aug", "sep", "oct", "nov", "dec"]

  predicate InRange(c: char, lo: char, hi: char) { lo <= c <= hi }

  /** `[lo0-hi0][lo1-hi1]` at position `i`. */
  function TwoDigits(s: string, i: nat, lo0: char, hi0: char, lo1: char, hi1: char): (cs: seq<Cand>)
    requires '0' <= lo0 && hi0 <= '9' && '0' <= lo1 && hi1 <= '9'
    ensures forall c :: c in cs ==> 1 <= c.len && i + c.len <= |s|
  {
    if i + 1 < |s| && InRange(s[i], lo0, hi0) && InRange(s[i + 1], lo1, hi1)
    then [Cand(10 * DigitValue(s[i]) + DigitValue(s[i + 1]), 2)]
    else []
  }

  /** `[lo-hi]` at position `i`. */
  function OneDigit(s: string, i: nat, lo: char, hi: char): (cs: seq<Cand>)
    requires '0' <= lo && hi <= '9'
    ensures forall c :: c in cs ==> 1 <= c.len && i + c.len <= |s|
  {
    if i < |s| && InRange(s[i], lo, hi) then [Cand(DigitValue(s[i]), 1)] else []
  }

  /** `\d{n}` at position `i`. */
  function FixedDigits(s: string, i: nat, n: nat): (cs: seq<Cand>)
    requires n >= 1
    ensures forall c :: c in cs ==> 1 <= c.len && i + c.len <= |s|
  {
    if i + n <= |s| && AllDigits(s[i..i + n]) then [Cand(DigitsValue(s[i..i + n]), n)] else []
  }

  /** The month (1..12) whose name in `names` starts at position `i`, ignoring case. */
  function MonthAt(names: seq<string>, s: string, i: nat, k: nat): (cs: seq<Cand>)
    requires forall j :: 0 <= j < |names| ==> |names[j]| >= 1
    ensures forall c :: c in cs ==> 1 <= c.len && i + c.len <= |s|
    decreases |names| - k
  {
    if k >= |names| then []
    else if i + |names[k]| <= |s| && Lower(s[i..i + |names[k]|]) == names[k] then [Cand(k + 1, |names[k]|)]
    else MonthAt(names, s, i, k + 1)
  }

  /** `\s+`, greedy: the longest run of whitespace first, then ever shorter ones. */
  function SpaceCands(n: nat): (cs: seq<Cand>)
    ensures |cs| == n
    ensures forall c :: c in cs ==> 1 <= c.len <= n
  {
    if n == 0 then [] else [Cand(0, n)] + SpaceCands(n - 1)
  }

  /** The ways `p` can match at position `i`, in the order the regular expression tries them. */
  function Cands(p: Piece, s: string, i: nat): (cs: seq<Cand>)
    requires i <= |s|
    ensures forall c :: c in cs ==> 1 <= c.len && i + c.len <= |s|
  {
    match p
    case Lit(ch) => if i < |s| && s[i] == ch then [Cand(0, 1)] else []
    case Spaces => SpaceCands(SpaceRun(s, i))
    case Year => FixedDigits(s, i, 4)
    case ShortYear => FixedDigits(s, i, 2)
    case MonthNumber =>
      TwoDigits(s, i, '1', '1', '0', '2') + TwoDigits(s, i, '0', '0', '1', '9') + OneDigit(s, i, '1', '9')
    case DayOfMonth =>
      TwoDigits(s, i, '3', '3', '0', '1') + TwoDigits(s, i, '1', '2', '0', '9')
      + TwoDigits(s, i, '0', '0', '1', '9') + OneDigit(s, i, '1', '9')
      + (if i < |s| && s[i] == ' ' then
           (var c := OneDigit(s, i + 1, '1', '9'); if c == [] then [] else [Cand(c[0].value, 2)])
         else [])
    case MonthName => MonthAt(MonthNames, s, i, 0)
    case MonthAbbrev => MonthAt(MonthAbbrevs, s, i, 0)
    case Hour =>
      TwoDigits(s, i, '2', '2', '0', '3') + TwoDigits(s, i, '0', '1', '0', '9') + OneDigit(s, i, '0', '9')
    case Minute => TwoDigits(s, i, '0', '5', '0', '9') + OneDigit(s, i, '0', '9')
  }

  /** Record the value a directive matched (`%y` maps 69..99 to 1969..1999 and 0..68 to 2000..2068). */
  function Record(f: Fields, p: Piece, v: int): Fields {
    match p
    case Year => f.(year := Some(v))
    case ShortYear => f.(year := Some(if v <= 68 then v + 2000 else v + 1900))
    case MonthNumber => f.(month := Some(v))
    case MonthName => f.(month := Some(v))
    case MonthAbbrev => f.(month := Some(v))
    case DayOfMonth => f.(day := Some(v))
    case Hour => f.(hour := Some(v))
    case Minute => f.(minute := Some(v))
    case _ => f
  }

  /**
   * The first match of `pat` at position `i`, trying the alternatives of `pat[0]` from
   * number `alt` on and backtracking into the next one when the rest of the format fails.
   */
  function Match(pat: Format, s: string, i: nat, acc: Fields, alt: nat): (r: Option<Matched>)
    requires i <= |s|
    ensures r.Some? ==> i <= r.value.end <= |s|
    decreases |pat|, if pat == [] then 0 else |Cands(pat[0], s, i)| - alt
  {
    if pat == [] then Some(Matched(acc, i))
    else
      var cs := Cands(pat[0], s, i);
      if alt >= |cs| then None
      else
        assert cs[alt] in cs;
        var c := cs[alt];
        match Match(pat[1..], s, i + c.len, Record(acc, pat[0], c.value), 0)
        case Some(m) => Some(m)
        case None => Match(pat, s, i, acc, alt + 1)
  }

  /** The fields of `s` read with format `pat`, when the first match covers all of `s`. */
  function Scan(s: string, pat: Format): Option<Fields> {
    match Match(pat, s, 0, NoFields, 0)
    case Some(m) => if m.end == |s| then Some(m.fields) else None
    case None => None
  }

  /** `datetime.strptime(s, fmt).date()`; missing fields default to 1900-01-01, as CPython's do. */
  function ParseDate(s: string, pat: Format): (r: Option<Date>)
    ensures r.Some? ==> IsValid(r.value)
  {
    match Scan(s, pat)
    case None => None
    case Some(f) =>
      var d := Date(f.year.GetOr(1900), f.month.GetOr(1), f.day.GetOr(1));
      if IsValid(d) then Some(d) else None
  }

  const IsoFormat: Format := [Year, Lit('-'), MonthNumber, Lit('-'), DayOfMonth]
  const ClockFormat: Format := [Hour, Lit(':'), Minute]
}

module StrptimeFacts {
  import opened Wrappers
  import opened Text
  import opened Calendar
  import opened Strptime

  /** The two characters `f"{n:02d}"` writes for a number below 100. */
  lemma PaddedTwoChars(n: nat)
    requires n < 100
    ensures Padded(n, 2) == [DigitChar(n / 10), DigitChar(n % 10)]
  {
    var p := Padded(n, 2);
    TwoDigitsValue(p);
    assert DigitValue(p[0]) == n / 10 && DigitValue(p[1]) == n % 10;
  }

  /** A zero-padded month number is read back by `%m` on the first alternative that applies. */
  lemma MonthNumberFirst(s: string, i: nat, m: int)
    requires 1 <= m <= 12 && i + 2 <= |s| && s[i..i + 2] == Padded(m, 2)
    ensures Cands(MonthNumber, s, i) != [] && Cands(MonthNumber, s, i)[0] == Cand(m, 2)
  {
    PaddedTwoChars(m);
    assert s[i] == DigitChar(m / 10) && s[i + 1] == DigitChar(m % 10);
  }

  /** A zero-padded day of the month is read back by `%d` on the first alternative that applies. */
  lemma DayOfMonthFirst(s: string, i: nat, d: int)
    requires 1 <= d <= 31 && i + 2 <= |s| && s[i..i + 2] == Padded(d, 2)
    ensures Cands(DayOfMonth, s, i) != [] && Cands(DayOfMonth, s, i)[0] == Cand(d, 2)
  {
    PaddedTwoChars(d);
    assert s[i] == DigitChar(d / 10) && s[i + 1] == DigitChar(d % 10);
  }

  /** A zero-padded hour of the day is read back by `%H` on the first alternative that applies. */
  lemma HourFirst(s: string, i: nat, h: int)
    requires 0 <= h <= 23 && i + 2 <= |s| && s[i..i + 2] == Padded(h, 2)
    ensures Cands(Hour, s, i) != [] && Cands(Hour, s, i)[0] == Cand(h, 2)
  {
    PaddedTwoChars(h);
    assert s[i] == DigitChar(h / 10) && s[i + 1] == DigitChar(h % 10);
  }

  /** A zero-padded minute is read back by `%M` on the first alternative that applies. */
  lemma MinuteFirst(s: string, i: nat, m: int)
    requires 0 <= m <= 59 && i + 2 <= |s| && s[i..i + 2] == Padded(m, 2)
    ensures Cands(Minute, s, i) != [] && Cands(Minute, s, i)[0] == Cand(m, 2)
  {
    PaddedTwoChars(m);
    assert s[i] == DigitChar(m / 10) && s[i + 1] == DigitChar(m % 10);
  }

  /** When the first alternative of `pat[0]` lets the rest of the format match, that match is the result. */
  lemma MatchFirst(pat: Format, s: string, i: nat, acc: Fields, m: Matched)
    requires pat != [] && i <= |s| && Cands(pat[0], s, i) != []
    requires var c := Cands(pat[0], s, i)[0];
      i + c.len <= |s| && Match(pat[1..], s, i + c.len, Record(acc, pat[0], c.value), 0) == Some(m)
    ensures Match(pat, s, i, acc, 0) == Some(m)
  {
    hide Cands;
    var cs := Cands(pat[0], s, i);
    assert cs[0] in cs;
  }

  /** The layout of `FormatIso(d)`: four year digits, '-', two month digits, '-', two day digits. */
  lemma IsoLayout(d: Date)
    requires IsValid(d) && d.year <= 9999
    ensures var s := FormatIso(d);
      |s| == 10 && s[0..4] == Padded(d.year, 4) && s[4] == '-' && s[5..7] == Padded(d.month, 2)
      && s[7] == '-' && s[8..10] == Padded(d.day, 2)
  {
    assert |Padded(d.year, 4)| == 4;
  }

  /** The part of `%Y-%m-%d` after the month: "-" and a zero-padded day. */
  lemma IsoDayPart(s: string, acc: Fields, day: int)
    requires |s| == 10 && 1 <= day <= 31 && s[7] == '-' && s[8..10] == Padded(day, 2)
    ensures Match(IsoFormat[3..], s, 7, acc, 0) == Some(Matched(Record(acc, DayOfMonth, day), 10))
  {
    var pat := IsoFormat;
    var f := Record(acc, DayOfMonth, day);
    DayOfMonthFirst(s, 8, day);
    assert Match(pat[5..], s, 10, f, 0) == Some(Matched(f, 10));
    MatchFirst(pat[4..], s, 8, acc, Matched(f, 10));
    MatchFirst(pat[3..], s, 7, acc, Matched(f, 10));
  }

  /** All of `%Y-%m-%d` against a zero-padded year, month and day. */
  lemma IsoMatch(s: string, year: int, month: int, day: int)
    requires |s| == 10 && 1 <= year <= 9999 && 1 <= month <= 12 && 1 <= day <= 31
    requires s[0..4] == Padded(year, 4) && s[4] == '-' && s[5..7] == Padded(month, 2)
    requires s[7] == '-' && s[8..10] == Padded(day, 2)
    ensures Scan(s, IsoFormat) == Some(Fields(Some(year), Some(month), Some(day), None, None))
  {
    var pat := IsoFormat;
    var f1 := Record(NoFields, Year, year);
    var f3 := Record(f1, MonthNumber, month);
    var f5 := Record(f3, DayOfMonth, day);
    IsoDayPart(s, f3, day);
    MonthNumberFirst(s, 5, month);
    MatchFirst(pat[2..], s, 5, f1, Matched(f5, 10));
    MatchFirst(pat[1..], s, 4, f1, Matched(f5, 10));
    assert Cands(Year, s, 0) == [Cand(year, 4)];
    MatchFirst(pat, s, 0, NoFields, Matched(f5, 10));
  }

  /** `strptime(d.strftime('%Y-%m-%d'), '%Y-%m-%d')` gives `d` back, for four-digit years. */
  lemma IsoRoundTrip(d: Date)
    requires IsValid(d) && d.year <= 9999
    ensures ParseDate(FormatIso(d), IsoFormat) == Some(d)
  {
    IsoLayout(d);
    IsoMatch(FormatIso(d), d.year, d.month, d.day);
  }

  /** `strptime(f"{h:02d}:{m:02d}", '%H:%M')` reads back the hour and the minute. */
  lemma ClockRoundTrip(h: int, m: int)
    requires 0 <= h <= 23 && 0 <= m <= 59
    ensures Scan(Padded(h, 2) + ":" + Padded(m, 2), ClockFormat)
         == Some(Fields(None, None, None, Some(h), Some(m)))
  {
    var s := Padded(h, 2) + ":" + Padded(m, 2);
    assert |s| == 5 && s[0..2] == Padded(h, 2) && s[2] == ':' && s[3..5] == Padded(m, 2);
    ClockMatch(s, h, m);
  }

  lemma ClockMatch(s: string, h: int, m: int)
    requires 0 <= h <= 23 && 0 <= m <= 59
    requires |s| == 5 && s[0..2] == Padded(h, 2) && s[2] == ':' && s[3..5] == Padded(m, 2)
    ensures Scan(s, ClockFormat) == Some(Fields(None, None, None, Some(h), Some(m)))
  {
    var f1 := Record(NoFields, Hour, h);
    HourFirst(s, 0, h);
    ClockMinutePart(s, f1, m);
    hide Match;
    MatchFirst(ClockFormat, s, 0, NoFields, Matched(Record(f1, Minute, m), 5));
  }

  /** The part of `%H:%M` after the hour: ':' and a zero-padded minute. */
  lemma ClockMinutePart(s: string, acc: Fields, m: int)
    requires |s| == 5 && 0 <= m <= 59 && s[2] == ':' && s[3..5] == Padded(m, 2)
    ensures Match(ClockFormat[1..], s, 2, acc, 0) == Some(Matched(Record(acc, Minute, m), 5))
  {
    var pat := ClockFormat;
    var f := Record(acc, Minute, m);
    MinuteFirst(s, 3, m);
    assert Match(pat[3..], s, 5, f, 0) == Some(Matched(f, 5));
    MatchFirst(pat[2..], s, 3, acc, Matched(f, 5));
    MatchFirst(pat[1..], s, 2, acc, Matched(f, 5));
  }
}

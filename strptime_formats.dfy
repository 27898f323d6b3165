/**
 * What `strptime` reads from the dates people type for the month/day formats the dialog
 * engine tries: a month name or its abbreviation next to the day, with or without a year
 * after them, and month/day/year written with slashes.
 */
module StrptimeFormats {
  import opened Wrappers
  import opened Text
  import opened Calendar
  import opened Strptime
  import opened StrptimeFacts

  // ---------------------------------------------------------------- month names

  /** The abbreviations are twelve different three-letter words: two of them differ in one of their letters. */
  lemma AbbrevsDiffer(j: nat, k: nat)
    requires j < 12 && k < 12 && j != k
    ensures exists x :: 0 <= x < 3 && MonthAbbrevs[j][x] != MonthAbbrevs[k][x]
  {
    assert |MonthAbbrevs[j]| == 3 && |MonthAbbrevs[k]| == 3;
    assert MonthAbbrevs[j] != MonthAbbrevs[k];
  }

  /**
   * A month's name starts with its abbreviation and is written in lower-case letters; no
   * name starts with the first letter of "today", "tomorrow", "yesterday" or "last".
   */
  lemma NameLayout(names: seq<string>, k: nat)
    requires names == MonthNames || names == MonthAbbrevs
    requires k < 12
    ensures 3 <= |names[k]| && names[k][..3] == MonthAbbrevs[k]
    ensures forall x :: 0 <= x < |names[k]| ==> 'a' <= names[k][x] <= 'z'
    ensures names[k][0] != 't' && names[k][0] != 'y' && names[k][0] != 'l'
  {
  }

  /** The name `names[k]` does not start at position `i` when another month's name does. */
  lemma NameMisses(names: seq<string>, s: string, i: nat, k: nat, m: nat)
    requires names == MonthNames || names == MonthAbbrevs
    requires k < 12 && m < 12 && k != m
    requires i + |names[m]| <= |s| && s[i..i + |names[m]|] == names[m]
    ensures !(i + |names[k]| <= |s| && Lower(s[i..i + |names[k]|]) == names[k])
  {
    NameLayout(names, k);
    NameLayout(names, m);
    AbbrevsDiffer(k, m);
    var x :| 0 <= x < 3 && MonthAbbrevs[k][x] != MonthAbbrevs[m][x];
    assert names[k][x] == MonthAbbrevs[k][x] && names[m][x] == MonthAbbrevs[m][x];
    if i + |names[k]| <= |s| {
      assert s[i + x] == names[m][x];
      assert Lower(s[i..i + |names[k]|])[x] == LowerChar(s[i + x]);
    }
  }

  /** `%B` (or `%b`) finds exactly month `m + 1` where its name is written. */
  lemma {:induction false} MonthAtFinds(names: seq<string>, s: string, i: nat, k: nat, m: nat)
    requires names == MonthNames || names == MonthAbbrevs
    requires k <= m < 12
    requires i + |names[m]| <= |s| && s[i..i + |names[m]|] == names[m]
    ensures MonthAt(names, s, i, k) == [Cand(m + 1, |names[m]|)]
    decreases m - k
  {
    if k < m {
      NameMisses(names, s, i, k, m);
      MonthAtFinds(names, s, i, k + 1, m);
    } else {
      NameLayout(names, m);
      LowerNothing(names[m]);
    }
  }

  // ---------------------------------------------------------------- numbers

  /** `str(n)` of a one-digit number is that digit. */
  lemma OneDigitText(n: nat)
    requires n < 10
    ensures |NatText(n)| == 1 && DigitValue(NatText(n)[0]) == n
  {
    var t := NatText(n);
    assert t[..0] == [];
  }

  /** `%d` reads `str(d)` back on its first alternative, when no digit follows it. */
  lemma DayTextFirst(s: string, i: nat, d: nat)
    requires 1 <= d <= 31
    requires i + |NatText(d)| <= |s| && s[i..i + |NatText(d)|] == NatText(d)
    requires i + |NatText(d)| == |s| || !IsDigit(s[i + |NatText(d)|])
    ensures Cands(DayOfMonth, s, i) != [] && Cands(DayOfMonth, s, i)[0] == Cand(d, |NatText(d)|)
  {
    var t := NatText(d);
    if d < 10 {
      OneDigitText(d);
      assert s[i] == t[0];
    } else {
      TwoDigitsValue(t);
      assert s[i] == t[0] && s[i + 1] == t[1];
    }
  }

  /** `%m` reads `str(m)` back on its first alternative, when no digit follows it. */
  lemma MonthTextFirst(s: string, i: nat, m: nat)
    requires 1 <= m <= 12
    requires i + |NatText(m)| <= |s| && s[i..i + |NatText(m)|] == NatText(m)
    requires i + |NatText(m)| == |s| || !IsDigit(s[i + |NatText(m)|])
    ensures Cands(MonthNumber, s, i) != [] && Cands(MonthNumber, s, i)[0] == Cand(m, |NatText(m)|)
  {
    var t := NatText(m);
    if m < 10 {
      OneDigitText(m);
      assert s[i] == t[0];
    } else {
      TwoDigitsValue(t);
      assert s[i] == t[0] && s[i + 1] == t[1];
    }
  }

  /** A single space followed by something else is read by `\s+` in one way only. */
  lemma OneSpace(s: string, i: nat)
    requires i + 1 < |s| && s[i] == ' ' && !IsSpace(s[i + 1])
    ensures Cands(Spaces, s, i) == [Cand(0, 1)]
  {
    assert SpaceRun(s, i) == 1;
  }

  /** `%B` (or `%b`) at a position where the name of month `m + 1` is written. */
  lemma NameCands(p: Piece, names: seq<string>, s: string, i: nat, m: nat)
    requires (p == MonthName && names == MonthNames) || (p == MonthAbbrev && names == MonthAbbrevs)
    requires m < 12 && i + |names[m]| <= |s| && s[i..i + |names[m]|] == names[m]
    ensures Cands(p, s, i) == [Cand(m + 1, |names[m]|)]
  {
    MonthAtFinds(names, s, i, 0, m);
  }

  /** An empty format matches at the end of the text. */
  lemma MatchEnd(s: string, f: Fields)
    ensures Match([], s, |s|, f, 0) == Some(Matched(f, |s|))
  {
  }

  /** A literal character matches itself in one way only. */
  lemma LitCands(s: string, i: nat, c: char)
    requires i < |s| && s[i] == c
    ensures Cands(Lit(c), s, i) == [Cand(0, 1)]
  {
  }

  // ---------------------------------------------------------------- the formats

  /** A match that covers the whole text is what `strptime` scans. */
  lemma ScanWhole(s: string, pat: Format, f: Fields)
    requires Match(pat, s, 0, NoFields, 0) == Some(Matched(f, |s|))
    ensures Scan(s, pat) == Some(f)
  {
  }

  /** Where the pieces of `x + " " + z` sit. */
  lemma SpaceLayout(x: string, z: string)
    ensures var s := x + " " + z;
      |s| == |x| + 1 + |z| && s[..|x|] == x && s[|x|] == ' ' && s[|x| + 1..] == z
  {
  }

  /** Where the pieces of `str(m) + "/" + str(d) + "/" + z` sit. */
  lemma SlashLayout(m: nat, d: nat, z: string)
    ensures var s := NatText(m) + "/" + NatText(d) + "/" + z;
      var a := |NatText(m)|;
      var b := a + 1 + |NatText(d)|;
      |s| == b + 1 + |z| && NumberAt(s, 0, m) && s[a] == '/' && NumberAt(s, a + 1, d) && s[b] == '/'
      && s[b + 1..] == z
  {
    hide NatText;
    var s := NatText(m) + "/" + NatText(d) + "/" + z;
    var a := |NatText(m)|;
    var b := a + 1 + |NatText(d)|;
    assert s[0..a] == NatText(m) && s[a] == '/';
    assert s[a + 1..b] == NatText(d) && s[b] == '/';
    assert |s| == b + 1 + |z| && s[b + 1..] == z;
  }

  /** `%B` (or `%b`) where the name of month `m + 1` ends the text. */
  lemma NameAtEnd(p: Piece, names: seq<string>, s: string, i: nat, m: nat)
    requires (p == MonthName && names == MonthNames) || (p == MonthAbbrev && names == MonthAbbrevs)
    requires m < 12 && i <= |s| && s[i..] == names[m]
    ensures i + |names[m]| == |s| && !IsSpace(s[i])
    ensures Cands(p, s, i) == [Cand(m + 1, |names[m]|)]
  {
    NameLayout(names, m);
    assert s[i] == names[m][0];
    assert s[i..i + |names[m]|] == names[m];
    NameCands(p, names, s, i, m);
  }

  /** `%B` (or `%b`) where the name of month `m + 1` starts the text and a space follows it. */
  lemma NameAtStart(p: Piece, names: seq<string>, s: string, m: nat)
    requires (p == MonthName && names == MonthNames) || (p == MonthAbbrev && names == MonthAbbrevs)
    requires m < 12 && |names[m]| <= |s| && s[..|names[m]|] == names[m]
    ensures Cands(p, s, 0) == [Cand(m + 1, |names[m]|)]
  {
    assert s[0..|names[m]|] == names[m];
    NameCands(p, names, s, 0, m);
  }

  /** A month piece records the month. */
  lemma RecordMonth(p: Piece, f: Fields, m: nat)
    requires p == MonthName || p == MonthAbbrev
    ensures Record(f, p, m) == f.(month := Some(m))
  {
  }

  /** `\s+%d` after a month name: one space and `str(d)` up to the end of the text. */
  lemma SpaceDayPart(s: string, n: nat, acc: Fields, d: nat)
    requires 1 <= d <= 31 && n + 1 + |NatText(d)| == |s|
    requires s[n] == ' ' && s[n + 1..] == NatText(d)
    ensures Match([Spaces, DayOfMonth], s, n, acc, 0) == Some(Matched(Record(acc, DayOfMonth, d), |s|))
  {
    var pat := [Spaces, DayOfMonth];
    var f := Record(acc, DayOfMonth, d);
    hide Match, Cands, NatText;
    assert s[n + 1] == NatText(d)[0] && s[n + 1..n + 1 + |NatText(d)|] == NatText(d);
    assert pat[2..] == [] && pat[1..] == [DayOfMonth];
    OneSpace(s, n);
    DayTextFirst(s, n + 1, d);
    MatchEnd(s, f);
    MatchFirst(pat[1..], s, n + 1, acc, Matched(f, |s|));
    MatchFirst(pat, s, n, acc, Matched(f, |s|));
  }

  /** One space and then a piece that reads `v` from the `len` characters ending the text. */
  lemma SpaceLastPart(s: string, n: nat, acc: Fields, p: Piece, v: nat, len: nat)
    requires 1 <= len && n + 1 + len == |s| && s[n] == ' ' && !IsSpace(s[n + 1])
    requires Cands(p, s, n + 1) == [Cand(v, len)]
    ensures Match([Spaces, p], s, n, acc, 0) == Some(Matched(Record(acc, p, v), |s|))
  {
    var pat := [Spaces, p];
    var f := Record(acc, p, v);
    hide Match, Cands;
    assert pat[2..] == [] && pat[1..] == [p];
    OneSpace(s, n);
    MatchEnd(s, f);
    MatchFirst(pat[1..], s, n + 1, acc, Matched(f, |s|));
    MatchFirst(pat, s, n, acc, Matched(f, |s|));
  }

  /** `%B %d` (or `%b %d`) against a month name read as `m`, one space and `str(d)`. */
  lemma NameDayMatch(p: Piece, s: string, m: nat, d: nat, len: nat)
    requires p == MonthName || p == MonthAbbrev
    requires 1 <= d <= 31 && len + 1 + |NatText(d)| == |s|
    requires Cands(p, s, 0) == [Cand(m, len)] && s[len] == ' ' && s[len + 1..] == NatText(d)
    ensures Scan(s, [p, Spaces, DayOfMonth]) == Some(Fields(None, Some(m), Some(d), None, None))
  {
    var pat := [p, Spaces, DayOfMonth];
    var f1 := Record(NoFields, p, m);
    var f3 := Record(f1, DayOfMonth, d);
    hide Match, Cands, NatText;
    assert Match(pat, s, 0, NoFields, 0) == Some(Matched(f3, |s|)) by {
      assert pat[1..] == [Spaces, DayOfMonth];
      SpaceDayPart(s, len, f1, d);
      MatchFirst(pat, s, 0, NoFields, Matched(f3, |s|));
    }
    ScanWhole(s, pat, f3);
    RecordMonth(p, NoFields, m);
  }

  /** `%d %B` (or `%d %b`) against `str(d)`, one space and a month name read as `m`. */
  lemma DayNameMatch(p: Piece, s: string, m: nat, d: nat, len: nat)
    requires p == MonthName || p == MonthAbbrev
    requires 1 <= d <= 31 && 1 <= len && |NatText(d)| + 1 + len == |s|
    requires s[..|NatText(d)|] == NatText(d) && s[|NatText(d)|] == ' ' && !IsSpace(s[|NatText(d)| + 1])
    requires Cands(p, s, |NatText(d)| + 1) == [Cand(m, len)]
    ensures Scan(s, [DayOfMonth, Spaces, p]) == Some(Fields(None, Some(m), Some(d), None, None))
  {
    var n := |NatText(d)|;
    var pat := [DayOfMonth, Spaces, p];
    var f1 := Record(NoFields, DayOfMonth, d);
    var f3 := Record(f1, p, m);
    hide Match, Cands, NatText;
    assert Match(pat, s, 0, NoFields, 0) == Some(Matched(f3, |s|)) by {
      assert s[0..n] == NatText(d);
      assert pat[1..] == [Spaces, p];
      SpaceLastPart(s, n, f1, p, m, len);
      DayTextFirst(s, 0, d);
      MatchFirst(pat, s, 0, NoFields, Matched(f3, |s|));
    }
    ScanWhole(s, pat, f3);
    RecordMonth(p, f1, m);
  }

  /**
   * `strptime(name + " " + str(d), '%B %d')`, or `'%b %d'` with the abbreviation, reads
   * day `d` of month `m` in 1900, the year `strptime` fills in.
   */
  lemma NameDayRead(p: Piece, names: seq<string>, m: nat, d: nat)
    requires (p == MonthName && names == MonthNames) || (p == MonthAbbrev && names == MonthAbbrevs)
    requires 1 <= m <= 12 && IsValid(Date(1900, m, d))
    ensures ParseDate(names[m - 1] + " " + NatText(d), [p, Spaces, DayOfMonth]) == Some(Date(1900, m, d))
  {
    var s := names[m - 1] + " " + NatText(d);
    assert 1 <= d <= 31;
    SpaceLayout(names[m - 1], NatText(d));
    NameAtStart(p, names, s, m - 1);
    NameDayMatch(p, s, m, d, |names[m - 1]|);
  }

  /**
   * `strptime(str(d) + " " + name, '%d %B')`, or `'%d %b'` with the abbreviation, reads
   * day `d` of month `m` in 1900.
   */
  lemma DayNameRead(p: Piece, names: seq<string>, m: nat, d: nat)
    requires (p == MonthName && names == MonthNames) || (p == MonthAbbrev && names == MonthAbbrevs)
    requires 1 <= m <= 12 && IsValid(Date(1900, m, d))
    ensures ParseDate(NatText(d) + " " + names[m - 1], [DayOfMonth, Spaces, p]) == Some(Date(1900, m, d))
  {
    var s := NatText(d) + " " + names[m - 1];
    assert 1 <= d <= 31;
    SpaceLayout(NatText(d), names[m - 1]);
    NameAtEnd(p, names, s, |NatText(d)| + 1, m - 1);
    DayNameMatch(p, s, m, d, |names[m - 1]|);
  }

  // ---------------------------------------------------------------- slashes

  /** `%Y` reads a four-digit year that ends the text. */
  lemma FullYearAtEnd(s: string, i: nat, y: nat)
    requires 1 <= y <= 9999 && i <= |s| && s[i..] == Padded(y, 4)
    ensures i + 4 == |s| && Cands(Year, s, i) == [Cand(y, 4)]
  {
    assert |NatText(y)| <= 4;
    assert s[i..i + 4] == Padded(y, 4);
  }

  /** `%y` reads a two-digit year that ends the text. */
  lemma ShortYearAtEnd(s: string, i: nat, yy: nat)
    requires yy < 100 && i <= |s| && s[i..] == Padded(yy, 2)
    ensures i + 2 == |s| && Cands(ShortYear, s, i) == [Cand(yy, 2)]
  {
    PaddedTwo(yy);
    assert s[i..i + 2] == Padded(yy, 2);
  }

  /** `str(n)` is written at position `i` of `s` and a character other than a digit follows it. */
  predicate NumberAt(s: string, i: nat, n: nat) {
    i + |NatText(n)| < |s| && s[i..i + |NatText(n)|] == NatText(n) && !IsDigit(s[i + |NatText(n)|])
  }

  /** A literal character at piece `k`, then the rest of the format. */
  lemma LitStep(pat: Format, k: nat, s: string, i: nat, acc: Fields, c: char, m: Matched)
    requires k < |pat| && pat[k] == Lit(c)
    requires i < |s| && s[i] == c && Match(pat[k + 1..], s, i + 1, acc, 0) == Some(m)
    ensures Match(pat[k..], s, i, acc, 0) == Some(m)
  {
    hide Match, Cands;
    assert pat[k..][0] == pat[k] && pat[k..][1..] == pat[k + 1..];
    LitCands(s, i, c);
    MatchFirst(pat[k..], s, i, acc, m);
  }

  /** `%d` at piece `k` where `str(d)` is written and no digit follows, then the rest of the format. */
  lemma DayStep(pat: Format, k: nat, s: string, i: nat, acc: Fields, d: nat, m: Matched)
    requires k < |pat| && pat[k] == DayOfMonth
    requires 1 <= d <= 31 && NumberAt(s, i, d)
    requires Match(pat[k + 1..], s, i + |NatText(d)|, Record(acc, DayOfMonth, d), 0) == Some(m)
    ensures Match(pat[k..], s, i, acc, 0) == Some(m)
  {
    hide Match, Cands, NatText;
    assert pat[k..][0] == pat[k] && pat[k..][1..] == pat[k + 1..];
    DayTextFirst(s, i, d);
    MatchFirst(pat[k..], s, i, acc, m);
  }

  /** `%m` at piece `k` where `str(mo)` is written and no digit follows, then the rest of the format. */
  lemma MonthStep(pat: Format, k: nat, s: string, i: nat, acc: Fields, mo: nat, m: Matched)
    requires k < |pat| && pat[k] == MonthNumber
    requires 1 <= mo <= 12 && NumberAt(s, i, mo)
    requires Match(pat[k + 1..], s, i + |NatText(mo)|, Record(acc, MonthNumber, mo), 0) == Some(m)
    ensures Match(pat[k..], s, i, acc, 0) == Some(m)
  {
    hide Match, Cands, NatText;
    assert pat[k..][0] == pat[k] && pat[k..][1..] == pat[k + 1..];
    MonthTextFirst(s, i, mo);
    MatchFirst(pat[k..], s, i, acc, m);
  }

  /** The last piece of a format reads `v` from the `len` characters ending the text. */
  lemma LastStep(pat: Format, s: string, i: nat, acc: Fields, v: nat, len: nat)
    requires pat != [] && i + len == |s| && Cands(pat[|pat| - 1], s, i) == [Cand(v, len)]
    ensures Match(pat[|pat| - 1..], s, i, acc, 0) == Some(Matched(Record(acc, pat[|pat| - 1], v), |s|))
  {
    var k := |pat| - 1;
    hide Match, Cands;
    assert pat[k..][0] == pat[k] && pat[k..][1..] == [];
    MatchEnd(s, Record(acc, pat[k], v));
    MatchFirst(pat[k..], s, i, acc, Matched(Record(acc, pat[k], v), |s|));
  }

  /** The pieces of `%m/%d/%Y` (or `%m/%d/%y`, with `yp` the year's piece). */
  predicate SlashPieces(pat: Format, yp: Piece) {
    |pat| == 5 && pat[0] == MonthNumber && pat[1] == Lit('/') && pat[2] == DayOfMonth && pat[3] == Lit('/')
    && pat[4] == yp
  }

  /** The end of `%m/%d/%Y`: '/' and the year piece reading `v` from the rest of the text. */
  lemma SlashYearTail(pat: Format, yp: Piece, s: string, b: nat, acc: Fields, v: nat, len: nat)
    requires SlashPieces(pat, yp)
    requires b + 1 + len == |s| && s[b] == '/' && Cands(yp, s, b + 1) == [Cand(v, len)]
    ensures Match(pat[3..], s, b, acc, 0) == Some(Matched(Record(acc, yp, v), |s|))
  {
    var done := Matched(Record(acc, yp, v), |s|);
    assert |pat| == 5 && pat[3] == Lit('/') && pat[4] == yp;
    hide Match, Cands, SlashPieces;
    LastStep(pat, s, b + 1, acc, v, len);
    LitStep(pat, 3, s, b, acc, '/', done);
  }

  /** The part of `%m/%d/%Y` after the month: '/', `str(d)`, '/' and a year read as `v`. */
  lemma SlashTail(pat: Format, yp: Piece, s: string, a: nat, acc: Fields, d: nat, v: nat, len: nat)
    requires SlashPieces(pat, yp) && 1 <= d <= 31
    requires a + 2 + |NatText(d)| + len == |s| && s[a] == '/'
    requires NumberAt(s, a + 1, d) && s[a + 1 + |NatText(d)|] == '/'
    requires Cands(yp, s, a + 2 + |NatText(d)|) == [Cand(v, len)]
    ensures Match(pat[1..], s, a, acc, 0) == Some(Matched(Record(Record(acc, DayOfMonth, d), yp, v), |s|))
  {
    hide Match, Cands, NatText, NumberAt;
    var f := Record(acc, DayOfMonth, d);
    var done := Matched(Record(f, yp, v), |s|);
    assert |pat| == 5 && pat[1] == Lit('/') && pat[2] == DayOfMonth;
    hide SlashPieces;
    SlashYearTail(pat, yp, s, a + 1 + |NatText(d)|, f, v, len);
    LitDayStep(pat, 1, s, a, acc, d, done);
  }

  /** '/' at piece `k` and `%d` after it, where "/" + `str(d)` is written, then the rest of the format. */
  lemma LitDayStep(pat: Format, k: nat, s: string, i: nat, acc: Fields, d: nat, m: Matched)
    requires k + 1 < |pat| && pat[k] == Lit('/') && pat[k + 1] == DayOfMonth
    requires i < |s| && s[i] == '/' && 1 <= d <= 31 && NumberAt(s, i + 1, d)
    requires Match(pat[k + 2..], s, i + 1 + |NatText(d)|, Record(acc, DayOfMonth, d), 0) == Some(m)
    ensures Match(pat[k..], s, i, acc, 0) == Some(m)
  {
    hide Match, Cands, NatText, NumberAt;
    DayStep(pat, k + 1, s, i + 1, acc, d, m);
    LitStep(pat, k, s, i, acc, '/', m);
  }

  /** `%m/%d/%Y` (or `%m/%d/%y`) against `str(m) + "/" + str(d) + "/"` and a year read as `v`. */
  lemma SlashMatch(pat: Format, yp: Piece, s: string, m: nat, d: nat, v: nat, len: nat)
    requires SlashPieces(pat, yp) && 1 <= m <= 12 && 1 <= d <= 31
    requires |NatText(m)| + 2 + |NatText(d)| + len == |s|
    requires NumberAt(s, 0, m) && s[|NatText(m)|] == '/'
    requires NumberAt(s, |NatText(m)| + 1, d) && s[|NatText(m)| + 1 + |NatText(d)|] == '/'
    requires Cands(yp, s, |NatText(m)| + 2 + |NatText(d)|) == [Cand(v, len)]
    ensures Scan(s, pat) == Some(Record(Fields(None, Some(m), Some(d), None, None), yp, v))
  {
    hide Match, Cands, NatText, NumberAt, Scan;
    var f1 := Record(NoFields, MonthNumber, m);
    var done := Matched(Record(Record(f1, DayOfMonth, d), yp, v), |s|);
    assert Record(f1, DayOfMonth, d) == Fields(None, Some(m), Some(d), None, None);
    assert |pat| == 5 && pat[0] == MonthNumber;
    hide SlashPieces, Record;
    SlashTail(pat, yp, s, |NatText(m)|, f1, d, v, len);
    MonthStep(pat, 0, s, 0, NoFields, m, done);
    assert pat[0..] == pat;
    ScanWhole(s, pat, done.fields);
  }

  /** `%m/%d/%Y` (or `%m/%d/%y`) scans `str(m) + "/" + str(d) + "/" + yt` when the year piece reads `v` from `yt`. */
  lemma SlashScan(yp: Piece, m: nat, d: nat, v: nat, yt: string)
    requires 1 <= m <= 12 && 1 <= d <= 31
    requires Cands(yp, NatText(m) + "/" + NatText(d) + "/" + yt, |NatText(m)| + 2 + |NatText(d)|) == [Cand(v, |yt|)]
    ensures Scan(NatText(m) + "/" + NatText(d) + "/" + yt, [MonthNumber, Lit('/'), DayOfMonth, Lit('/'), yp])
         == Some(Record(Fields(None, Some(m), Some(d), None, None), yp, v))
  {
    hide NatText, Match, Cands, Scan, NumberAt;
    SlashLayout(m, d, yt);
    SlashMatch([MonthNumber, Lit('/'), DayOfMonth, Lit('/'), yp], yp, NatText(m) + "/" + NatText(d) + "/" + yt,
               m, d, v, |yt|);
  }

  /** A valid date's month and day are in their ranges. */
  lemma DateBounds(dt: Date)
    requires IsValid(dt)
    ensures 1 <= dt.year && 1 <= dt.month <= 12 && 1 <= dt.day <= 31
  {
  }

  /** `strptime(str(m) + "/" + str(d) + "/" + f"{y:04d}", '%m/%d/%Y')` reads the date `y-m-d`. */
  lemma SlashDateRead(m: nat, d: nat, y: nat)
    requires IsValid(Date(y, m, d)) && y <= 9999
    ensures ParseDate(NatText(m) + "/" + NatText(d) + "/" + Padded(y, 4),
                      [MonthNumber, Lit('/'), DayOfMonth, Lit('/'), Year]) == Some(Date(y, m, d))
  {
    hide NatText, Padded, Match, Cands, Scan, IsValid;
    DateBounds(Date(y, m, d));
    FullYearAtEnd(NatText(m) + "/" + NatText(d) + "/" + Padded(y, 4), |NatText(m)| + 2 + |NatText(d)|, y);
    SlashScan(Year, m, d, y, Padded(y, 4));
  }

  /**
   * `strptime(str(m) + "/" + str(d) + "/" + f"{yy:02d}", '%m/%d/%y')` reads the date in
   * 2000 + yy for yy up to 68, and in 1900 + yy from 69 on.
   */
  lemma ShortSlashDateRead(m: nat, d: nat, yy: nat)
    requires yy < 100
    requires IsValid(Date(if yy <= 68 then 2000 + yy else 1900 + yy, m, d))
    ensures ParseDate(NatText(m) + "/" + NatText(d) + "/" + Padded(yy, 2),
                      [MonthNumber, Lit('/'), DayOfMonth, Lit('/'), ShortYear])
         == Some(Date(if yy <= 68 then 2000 + yy else 1900 + yy, m, d))
  {
    hide NatText, Padded, Match, Cands, Scan, IsValid;
    var y := if yy <= 68 then 2000 + yy else 1900 + yy;
    DateBounds(Date(y, m, d));
    assert Record(Fields(None, Some(m), Some(d), None, None), ShortYear, yy) == Fields(Some(y), Some(m), Some(d), None, None);
    ShortYearAtEnd(NatText(m) + "/" + NatText(d) + "/" + Padded(yy, 2), |NatText(m)| + 2 + |NatText(d)|, yy);
    SlashScan(ShortYear, m, d, yy, Padded(yy, 2));
  }

  // ---------------------------------------------------------------- names with a year

  /** A piece whose only alternative at `i` reads `v` from `len` characters, then the rest of the format. */
  lemma CandStep(pat: Format, k: nat, s: string, i: nat, acc: Fields, v: nat, len: nat, m: Matched)
    requires k < |pat| && i + len <= |s| && Cands(pat[k], s, i) == [Cand(v, len)]
    requires Match(pat[k + 1..], s, i + len, Record(acc, pat[k], v), 0) == Some(m)
    ensures Match(pat[k..], s, i, acc, 0) == Some(m)
  {
    hide Match, Cands;
    assert pat[k..][0] == pat[k] && pat[k..][1..] == pat[k + 1..];
    MatchFirst(pat[k..], s, i, acc, m);
  }

  /** `\s+` at piece `k` over a single space, then the rest of the format. */
  lemma SpaceStep(pat: Format, k: nat, s: string, i: nat, acc: Fields, m: Matched)
    requires k < |pat| && pat[k] == Spaces
    requires i + 1 < |s| && s[i] == ' ' && !IsSpace(s[i + 1])
    requires Match(pat[k + 1..], s, i + 1, acc, 0) == Some(m)
    ensures Match(pat[k..], s, i, acc, 0) == Some(m)
  {
    hide Match, Cands;
    assert Record(acc, Spaces, 0) == acc;
    OneSpace(s, i);
    CandStep(pat, k, s, i, acc, 0, 1, m);
  }

  /** The pieces of `%B %d %Y` and its three variants: `first` and `third` around spaces, then `%Y`. */
  predicate YearPieces(pat: Format, first: Piece, third: Piece) {
    |pat| == 5 && pat[0] == first && pat[1] == Spaces && pat[2] == third && pat[3] == Spaces && pat[4] == Year
  }

  /** The end of `%B %d %Y`: one space and a four-digit year that ends the text. */
  lemma SpaceYearTail(pat: Format, first: Piece, third: Piece, s: string, b: nat, acc: Fields, y: nat)
    requires YearPieces(pat, first, third) && 1 <= y <= 9999
    requires b < |s| && s[b] == ' ' && s[b + 1..] == Padded(y, 4)
    ensures b + 5 == |s|
    ensures Match(pat[3..], s, b, acc, 0) == Some(Matched(Record(acc, Year, y), |s|))
  {
    FullYearAtEnd(s, b + 1, y);
    assert IsDigit(Padded(y, 4)[0]) && s[b + 1] == Padded(y, 4)[0];
    var done := Matched(Record(acc, Year, y), |s|);
    assert |pat| == 5 && pat[3] == Spaces && pat[4] == Year;
    hide Match, Cands, Padded, YearPieces;
    LastStep(pat, s, b + 1, acc, y, 4);
    SpaceStep(pat, 3, s, b, acc, done);
  }

  /** `str(n)` written at `i` starts with a digit, which is no whitespace. */
  lemma NumberStart(s: string, i: nat, n: nat)
    requires NumberAt(s, i, n)
    ensures i < |s| && !IsSpace(s[i])
  {
    assert s[i] == NatText(n)[0];
  }

  /** `%B %d %Y` (or `%b %d %Y`) against a month name read as `m`, a space, `str(d)`, a space and a year. */
  lemma NameDayYearMatch(pat: Format, p: Piece, s: string, m: nat, d: nat, y: nat, len: nat)
    requires YearPieces(pat, p, DayOfMonth) && (p == MonthName || p == MonthAbbrev)
    requires 1 <= d <= 31 && 1 <= y <= 9999 && len < |s|
    requires Cands(p, s, 0) == [Cand(m, len)] && s[len] == ' ' && NumberAt(s, len + 1, d)
    requires len + 1 + |NatText(d)| < |s| && s[len + 1 + |NatText(d)|] == ' '
    requires s[len + 2 + |NatText(d)|..] == Padded(y, 4)
    ensures Scan(s, pat) == Some(Fields(Some(y), Some(m), Some(d), None, None))
  {
    hide Match, Cands, NatText, NumberAt, Scan, Padded;
    var b := len + 1 + |NatText(d)|;
    var f1 := Record(NoFields, p, m);
    var f2 := Record(f1, DayOfMonth, d);
    var done := Matched(Record(f2, Year, y), |s|);
    assert Record(f2, Year, y) == Fields(Some(y), Some(m), Some(d), None, None);
    assert |pat| == 5 && pat[0] == p && pat[1] == Spaces && pat[2] == DayOfMonth;
    NumberStart(s, len + 1, d);
    hide YearPieces, Record;
    SpaceYearTail(pat, p, DayOfMonth, s, b, f2, y);
    DayStep(pat, 2, s, len + 1, f1, d, done);
    SpaceStep(pat, 1, s, len, f1, done);
    CandStep(pat, 0, s, 0, NoFields, m, len, done);
    assert pat[0..] == pat;
    ScanWhole(s, pat, done.fields);
  }

  /** Where the pieces of `x + " " + str(d) + " " + f"{y:04d}"` sit. */
  lemma DayYearLayout(x: string, d: nat, y: nat)
    requires y <= 9999
    ensures var s := x + " " + NatText(d) + " " + Padded(y, 4);
      var b := |x| + 1 + |NatText(d)|;
      |s| == b + 5 && s[..|x|] == x && s[|x|] == ' ' && NumberAt(s, |x| + 1, d) && s[b] == ' '
      && s[b + 1..] == Padded(y, 4)
  {
    hide NatText, Padded;
    var s := x + " " + NatText(d) + " " + Padded(y, 4);
    var b := |x| + 1 + |NatText(d)|;
    assert |Padded(y, 4)| == 4;
    assert s[..|x|] == x && s[|x|] == ' ';
    assert s[|x| + 1..b] == NatText(d) && s[b] == ' ';
    assert s[b + 1..] == Padded(y, 4);
  }

  /** `%B %d %Y` (or `%b %d %Y`) scans text `x` read as month `m`, `str(d)` and a four-digit year into those fields. */
  lemma NameDayYearScan(p: Piece, x: string, m: nat, d: nat, y: nat)
    requires p == MonthName || p == MonthAbbrev
    requires 1 <= d <= 31 && 1 <= y <= 9999
    requires Cands(p, x + " " + NatText(d) + " " + Padded(y, 4), 0) == [Cand(m, |x|)]
    ensures Scan(x + " " + NatText(d) + " " + Padded(y, 4), [p, Spaces, DayOfMonth, Spaces, Year])
         == Some(Fields(Some(y), Some(m), Some(d), None, None))
  {
    hide NatText, Padded, Match, Cands, Scan, NumberAt;
    DayYearLayout(x, d, y);
    NameDayYearMatch([p, Spaces, DayOfMonth, Spaces, Year], p, x + " " + NatText(d) + " " + Padded(y, 4), m, d, y, |x|);
  }

  /**
   * `strptime(name + " " + str(d) + " " + f"{y:04d}", '%B %d %Y')`, or `'%b %d %Y'` with the
   * abbreviation, reads the date `y-m-d`.
   */
  lemma NameDayYearRead(p: Piece, names: seq<string>, m: nat, d: nat, y: nat)
    requires (p == MonthName && names == MonthNames) || (p == MonthAbbrev && names == MonthAbbrevs)
    requires 1 <= m <= 12 && IsValid(Date(y, m, d)) && y <= 9999
    ensures ParseDate(names[m - 1] + " " + NatText(d) + " " + Padded(y, 4), [p, Spaces, DayOfMonth, Spaces, Year])
         == Some(Date(y, m, d))
  {
    hide NatText, Padded, Match, Cands, Scan, IsValid;
    DateBounds(Date(y, m, d));
    var s := names[m - 1] + " " + NatText(d) + " " + Padded(y, 4);
    assert s[..|names[m - 1]|] == names[m - 1] by { DayYearLayout(names[m - 1], d, y); }
    NameAtStart(p, names, s, m - 1);
    NameDayYearScan(p, names[m - 1], m, d, y);
  }

  /** Where the pieces of `str(d) + " " + x + " " + f"{y:04d}"` sit. */
  lemma NameYearLayout(d: nat, x: string, y: nat)
    requires y <= 9999
    ensures var s := NatText(d) + " " + x + " " + Padded(y, 4);
      var a := |NatText(d)|;
      var b := a + 1 + |x|;
      |s| == b + 5 && NumberAt(s, 0, d) && s[a] == ' ' && s[a + 1..b] == x && s[b] == ' '
      && s[b + 1..] == Padded(y, 4)
  {
    hide NatText, Padded;
    var s := NatText(d) + " " + x + " " + Padded(y, 4);
    var a := |NatText(d)|;
    var b := a + 1 + |x|;
    assert |Padded(y, 4)| == 4;
    assert s[0..a] == NatText(d) && s[a] == ' ';
    assert s[a + 1..b] == x && s[b] == ' ';
    assert s[b + 1..] == Padded(y, 4);
  }

  /** `%B` (or `%b`) where the name of month `m + 1` is written at `i`. */
  lemma NameWithin(p: Piece, names: seq<string>, s: string, i: nat, m: nat)
    requires (p == MonthName && names == MonthNames) || (p == MonthAbbrev && names == MonthAbbrevs)
    requires m < 12 && i + |names[m]| <= |s| && s[i..i + |names[m]|] == names[m]
    ensures i < |s| && !IsSpace(s[i])
    ensures Cands(p, s, i) == [Cand(m + 1, |names[m]|)]
  {
    NameLayout(names, m);
    assert s[i] == names[m][0];
    NameCands(p, names, s, i, m);
  }

  /** `%d %B %Y` (or `%d %b %Y`) against `str(d)`, a space, a month name read as `m`, a space and a year. */
  lemma DayNameYearMatch(pat: Format, p: Piece, s: string, m: nat, d: nat, y: nat, len: nat)
    requires YearPieces(pat, DayOfMonth, p) && (p == MonthName || p == MonthAbbrev)
    requires 1 <= d <= 31 && 1 <= y <= 9999 && |NatText(d)| + 1 + len < |s|
    requires NumberAt(s, 0, d) && s[|NatText(d)|] == ' ' && !IsSpace(s[|NatText(d)| + 1])
    requires Cands(p, s, |NatText(d)| + 1) == [Cand(m, len)]
    requires s[|NatText(d)| + 1 + len] == ' ' && s[|NatText(d)| + 2 + len..] == Padded(y, 4)
    ensures Scan(s, pat) == Some(Fields(Some(y), Some(m), Some(d), None, None))
  {
    hide Match, Cands, NatText, NumberAt, Scan, Padded;
    var a := |NatText(d)|;
    var f1 := Record(NoFields, DayOfMonth, d);
    var f2 := Record(f1, p, m);
    var done := Matched(Record(f2, Year, y), |s|);
    assert Record(f2, Year, y) == Fields(Some(y), Some(m), Some(d), None, None);
    assert |pat| == 5 && pat[0] == DayOfMonth && pat[1] == Spaces && pat[2] == p;
    hide YearPieces, Record;
    SpaceYearTail(pat, DayOfMonth, p, s, a + 1 + len, f2, y);
    CandStep(pat, 2, s, a + 1, f1, m, len, done);
    SpaceStep(pat, 1, s, a, f1, done);
    DayStep(pat, 0, s, 0, NoFields, d, done);
    assert pat[0..] == pat;
    ScanWhole(s, pat, done.fields);
  }

  /** `%d %B %Y` (or `%d %b %Y`) scans `str(d)`, text `x` read as month `m` and a four-digit year into those fields. */
  lemma DayNameYearScan(p: Piece, x: string, m: nat, d: nat, y: nat)
    requires p == MonthName || p == MonthAbbrev
    requires 1 <= d <= 31 && 1 <= y <= 9999 && x != [] && !IsSpace(x[0])
    requires Cands(p, NatText(d) + " " + x + " " + Padded(y, 4), |NatText(d)| + 1) == [Cand(m, |x|)]
    ensures Scan(NatText(d) + " " + x + " " + Padded(y, 4), [DayOfMonth, Spaces, p, Spaces, Year])
         == Some(Fields(Some(y), Some(m), Some(d), None, None))
  {
    hide NatText, Padded, Match, Cands, Scan, NumberAt;
    var s := NatText(d) + " " + x + " " + Padded(y, 4);
    NameYearLayout(d, x, y);
    assert s[|NatText(d)| + 1] == x[0];
    DayNameYearMatch([DayOfMonth, Spaces, p, Spaces, Year], p, s, m, d, y, |x|);
  }

  /**
   * `strptime(str(d) + " " + name + " " + f"{y:04d}", '%d %B %Y')`, or `'%d %b %Y'` with the
   * abbreviation, reads the date `y-m-d`.
   */
  lemma DayNameYearRead(p: Piece, names: seq<string>, m: nat, d: nat, y: nat)
    requires (p == MonthName && names == MonthNames) || (p == MonthAbbrev && names == MonthAbbrevs)
    requires 1 <= m <= 12 && IsValid(Date(y, m, d)) && y <= 9999
    ensures ParseDate(NatText(d) + " " + names[m - 1] + " " + Padded(y, 4), [DayOfMonth, Spaces, p, Spaces, Year])
         == Some(Date(y, m, d))
  {
    hide NatText, Padded, Match, Cands, Scan, IsValid;
    DateBounds(Date(y, m, d));
    var s := NatText(d) + " " + names[m - 1] + " " + Padded(y, 4);
    var i := |NatText(d)| + 1;
    assert s[i..i + |names[m - 1]|] == names[m - 1] by { NameYearLayout(d, names[m - 1], y); }
    NameWithin(p, names, s, i, m - 1);
    DayNameYearScan(p, names[m - 1], m, d, y);
  }
}

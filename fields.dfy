/**
 * The checks on the typed answers for location, cuisine, party size and e-mail address.
 */
module FieldValidation {
  import opened Wrappers
  import opened Text

  // ---------------------------------------------------------------- location and cuisine

  const ValidLocations: seq<string> := ["manhattan", "new york", "nyc", "new york city", "ny"]
  const ValidCuisines: seq<string> := ["chinese", "italian", "japanese", "mexican", "indian"]

  /** Words that show the user asked for help rather than naming a place. */
  const TriggerWords: seq<string> := ["nearby", "places", "restaurant", "food", "eat", "dine", "dinner",
                                      "lunch", "breakfast", "suggestions", "help", "hungry", "recommend"]

  const LocationPrompt := "Where would you like to dine?"

  function UnknownLocationMessage(input: string): string {
    "Sorry, I can't fulfill requests for " + input + ". Please enter a valid location."
  }

  function UnknownCuisineMessage(input: string): string {
    "Sorry, I don't have suggestions for " + input
      + " cuisine. I support Chinese, Italian, Japanese, Mexican, and Indian. Which would you like?"
  }

  /** The outcome of checking one answer: the text to store, or the message to ask again with. */
  datatype FieldCheck = Store(value: string) | Ask(message: string)

  predicate HasTriggerWord(input: string) {
    exists w | w in TriggerWords :: Contains(Lower(input), w)
  }

  /** The location branch: a trigger word asks again, a known place is stored as typed, anything else is refused. */
  function CheckLocation(input: string): (r: FieldCheck)
    ensures r.Store? ==> r.value == input && Lower(input) in ValidLocations
    ensures r == Ask(LocationPrompt) <==> HasTriggerWord(input)
  {
    if HasTriggerWord(input) then Ask(LocationPrompt)
    else if Lower(input) in ValidLocations then Store(input)
    else Ask(UnknownLocationMessage(input))
  }

  /** The cuisine branch: a supported cuisine in any letter case is stored capitalised. */
  function CheckCuisine(input: string): (r: FieldCheck)
    ensures r.Store? ==> Lower(r.value) == Lower(input) && Lower(input) in ValidCuisines
  {
    if Lower(input) in ValidCuisines then Store(Capitalize(input))
    else Ask(UnknownCuisineMessage(input))
  }

  // ---------------------------------------------------------------- party size

  /** What `float(text)` yields: a finite value (kept as its truncation toward zero), an infinity or NaN. */
  datatype FloatValue = Finite(truncated: int) | Infinite | NotANumber

  /** An unsigned decimal without exponent: `digits`, `digits.`, `digits.digits` or `.digits`; its whole part. */
  function DecimalWhole(r: string): (w: Option<nat>)
  {
    var parts := Split(r, '.');
    if |parts| == 1 then
      if IsDigitPart(r) then Some(DigitPartValue(r)) else None
    else if |parts| == 2 && (IsDigitPart(parts[0]) || parts[0] == "") && (IsDigitPart(parts[1]) || parts[1] == "")
            && (parts[0] != "" || parts[1] != "") then
      Some(if parts[0] == "" then 0 else DigitPartValue(parts[0]))
    else None
  }

  /** An unsigned number: "inf", "infinity" or "nan" in any case, or a decimal. */
  function ParseUnsigned(body: string): (r: Option<FloatValue>)
    ensures r.Some? && r.value.Finite? ==> r.value.truncated >= 0
  {
    var word := Lower(body);
    if word == "inf" || word == "infinity" then Some(Infinite)
    else if word == "nan" then Some(NotANumber)
    else match DecimalWhole(body)
      case Some(w) => Some(Finite(w))
      case None => None
  }

  /** Python's `float(text)` for text without an exponent, truncated the way `int()` truncates. */
  function ParseFloat(text: string): (r: Option<FloatValue>)
    ensures r.Some? ==> Strip(text) != []
    ensures r.Some? && r.value.Finite? && r.value.truncated < 0 ==> Strip(text)[0] == '-'
  {
    var t := Strip(text);
    if t != [] && (t[0] == '-' || t[0] == '+') then
      match ParseUnsigned(t[1..])
      case Some(Finite(w)) => Some(Finite(if t[0] == '-' then -w else w))
      case other => other
    else ParseUnsigned(t)
  }

  const TooFewPeopleMessage := "Sorry, I can't fulfill a reservation for less than 1 person. How many people will be dining?"
  const TooManyPeopleMessage := "Sorry, I can't fulfill reservations for more than 20 people. How many people will be dining?"

  function InvalidNumberMessage(value: string): string {
    "Sorry, '" + value + "' is not a valid number."
  }

  /** The outcome of checking a party size: the number of people, or the message to show. */
  datatype PeopleCheck = People(count: nat) | PeopleRefused(message: string)

  /**
   * `validate_num_people` as written: `int(float(value))` on an infinity raises OverflowError,
   * which its `except (ValueError, TypeError)` does not catch; `None` is that escaping exception.
   */
  function CheckNumPeopleAsWritten(value: string): (r: Option<PeopleCheck>)
    ensures r.None? <==> ParseFloat(value) == Some(Infinite)
    ensures r.Some? && r.value.People? ==> 1 <= r.value.count <= 20
  {
    match ParseFloat(value)
    case Some(Infinite) => None
    case Some(Finite(n)) =>
      if n < 1 then Some(PeopleRefused(TooFewPeopleMessage))
      else if n > 20 then Some(PeopleRefused(TooManyPeopleMessage))
      else Some(People(n))
    case _ => Some(PeopleRefused(InvalidNumberMessage(value)))
  }

  /** `validate_num_people` with an infinity refused like any other text that is not a number. */
  function CheckNumPeople(value: string): (r: PeopleCheck)
    ensures r.People? ==> 1 <= r.count <= 20
    ensures r.People? <==> (exists n | 1 <= n <= 20 :: ParseFloat(value) == Some(Finite(n)))
    ensures r.People? ==> ParseFloat(value) == Some(Finite(r.count))
    ensures ParseFloat(value).Some? && ParseFloat(value).value.Finite? && ParseFloat(value).value.truncated < 1
      ==> r == PeopleRefused(TooFewPeopleMessage)
    ensures ParseFloat(value).Some? && ParseFloat(value).value.Finite? && ParseFloat(value).value.truncated > 20
      ==> r == PeopleRefused(TooManyPeopleMessage)
    ensures !(ParseFloat(value).Some? && ParseFloat(value).value.Finite?) ==> r == PeopleRefused(InvalidNumberMessage(value))
  {
    match ParseFloat(value)
    case Some(Finite(n)) =>
      if n < 1 then PeopleRefused(TooFewPeopleMessage)
      else if n > 20 then PeopleRefused(TooManyPeopleMessage)
      else People(n)
    case _ => PeopleRefused(InvalidNumberMessage(value))
  }

  // ---------------------------------------------------------------- e-mail address

  const ValidEmailDomains: seq<string> := [
    "gmail.com", "yahoo.com", "hotmail.com", "outlook.com", "icloud.com",
    "aol.com", "protonmail.com", "nyu.edu", "hotmail.co.uk", "yahoo.co.uk",
    "live.com", "msn.com", "me.com", "mac.com", "googlemail.com"]

  const BadEmailMessage := "That doesn't look like a valid email address. Please enter a valid one."

  function UnknownDomainMessage(domain: string): string {
    "I don't recognize '" + domain + "' as a valid email domain."
  }

  /** `[a-zA-Z0-9._%+-]`. */
  predicate IsLocalChar(c: char) {
    IsLetter(c) || IsDigit(c) || c == '.' || c == '_' || c == '%' || c == '+' || c == '-'
  }

  /** `[a-zA-Z0-9.-]`. */
  predicate IsHostChar(c: char) {
    IsLetter(c) || IsDigit(c) || c == '.' || c == '-'
  }

  /**
   * `^[a-zA-Z0-9._%+-]+@[a-zA-Z0-9.-]+\.[a-zA-Z]{2,}$` matched with the '@' at `at`, the last
   * '.' at `dot` and the match ending at `end`, which is the end of the text or a final newline.
   */
  predicate EmailShape(email: string, at: int, dot: int, end: int) {
    0 < at && at + 1 < dot && dot + 3 <= end && end <= |email|
    && (end == |email| || (end + 1 == |email| && email[end] == '\n'))
    && email[at] == '@' && email[dot] == '.'
    && (forall k :: 0 <= k < at ==> IsLocalChar(email[k]))
    && (forall k :: at < k < dot ==> IsHostChar(email[k]))
    && (forall k :: dot < k < end ==> IsLetter(email[k]))
  }

  /** The regular expression of `validate_email` matches `email`. */
  predicate MatchesEmailPattern(email: string) {
    exists at, dot, end | 0 <= at <= dot <= end <= |email| :: EmailShape(email, at, dot, end)
  }

  /** The position of the first `c` in `s`, or `|s|`. */
  function IndexOf(s: string, c: char): (k: nat)
    ensures k <= |s| && (k < |s| ==> s[k] == c) && forall j :: 0 <= j < k ==> s[j] != c
  {
    if s == [] then 0 else if s[0] == c then 0 else 1 + IndexOf(s[1..], c)
  }

  /** The position of the last `c` in `s`, or -1. */
  function LastIndexOf(s: string, c: char): (k: int)
    ensures -1 <= k < |s| && (k >= 0 ==> s[k] == c) && forall j :: k < j < |s| ==> s[j] != c
  {
    if s == [] then -1 else if s[|s| - 1] == c then |s| - 1 else LastIndexOf(s[..|s| - 1], c)
  }

  /** The pattern check as a scan: the first '@', the last '.', and the character classes in between. */
  predicate EmailSyntaxOk(email: string) {
    var end := if email != [] && email[|email| - 1] == '\n' then |email| - 1 else |email|;
    var at := IndexOf(email[..end], '@');
    var dot := LastIndexOf(email[..end], '.');
    0 < at && at + 1 < dot && dot + 3 <= end
    && (forall k :: 0 <= k < at ==> IsLocalChar(email[k]))
    && (forall k :: at < k < dot ==> IsHostChar(email[k]))
    && (forall k :: dot < k < end ==> IsLetter(email[k]))
  }

  /** `email.split('@')[1].lower()`: the text after the first '@', up to a second one. */
  function EmailDomain(email: string): (d: string)
    requires '@' in email
  {
    Lower(Split(email, '@')[1])
  }

  /** `validate_email(email)`: `None` when the address is accepted, otherwise the message. */
  function CheckEmail(email: string): (r: Option<string>)
    ensures r.None? ==> EmailSyntaxOk(email)
    ensures !EmailSyntaxOk(email) ==> r == Some(BadEmailMessage)
    ensures r.None? ==> '@' in email && EmailDomain(email) in ValidEmailDomains
  {
    if !EmailSyntaxOk(email) then Some(BadEmailMessage)
    else
      EmailSyntaxHasAt(email);
      var domain := EmailDomain(email);
      if domain in ValidEmailDomains then None else Some(UnknownDomainMessage(domain))
  }

  lemma EmailSyntaxHasAt(email: string)
    requires EmailSyntaxOk(email)
    ensures '@' in email
  {
    var end := if email != [] && email[|email| - 1] == '\n' then |email| - 1 else |email|;
    var at := IndexOf(email[..end], '@');
    assert email[at] == email[..end][at];
  }
}

/** What the answer checks promise: the e-mail pattern, the accepted sizes and places, and the stored texts. */
module FieldFacts {
  import opened Wrappers
  import opened Text
  import opened FieldValidation

  // ---------------------------------------------------------------- e-mail address

  /** The scan accepts exactly the addresses the regular expression matches. */
  lemma EmailPatternExact(email: string)
    ensures EmailSyntaxOk(email) <==> MatchesEmailPattern(email)
  {
    if EmailSyntaxOk(email) { ScanMatches(email); }
    if MatchesEmailPattern(email) {
      var at, dot, e :| 0 <= at <= dot <= e <= |email| && EmailShape(email, at, dot, e);
      MatchScans(email, at, dot, e);
    }
  }

  /** What the scan finds is a match of the pattern. */
  lemma ScanMatches(email: string)
    requires EmailSyntaxOk(email)
    ensures MatchesEmailPattern(email)
  {
    var end := if email != [] && email[|email| - 1] == '\n' then |email| - 1 else |email|;
    var body := email[..end];
    var at := IndexOf(body, '@');
    var dot := LastIndexOf(body, '.');
    assert email[at] == body[at] && email[dot] == body[dot];
    assert EmailShape(email, at, dot, end);
  }

  /** A match of the pattern has the '@' the scan finds first and the '.' it finds last, so the scan accepts. */
  lemma MatchScans(email: string, at: int, dot: int, e: int)
    requires 0 <= at <= dot <= e <= |email| && EmailShape(email, at, dot, e)
    ensures EmailSyntaxOk(email)
  {
    var end := if email != [] && email[|email| - 1] == '\n' then |email| - 1 else |email|;
    var body := email[..end];
    assert IsLetter(email[e - 1]);
    assert e == end;
    assert body[at] == '@' && forall j :: 0 <= j < at ==> body[j] != '@';
    assert body[dot] == '.' && forall j :: dot < j < |body| ==> body[j] != '.';
    assert IndexOf(body, '@') == at;
    assert LastIndexOf(body, '.') == dot;
  }

  /** The three outcomes of `validate_email`: a malformed address, an unknown domain (named in lower case), or acceptance. */
  lemma EmailVerdict(email: string)
    ensures !MatchesEmailPattern(email) ==> CheckEmail(email) == Some(BadEmailMessage)
    ensures MatchesEmailPattern(email) ==> ('@' in email && CheckEmail(email)
      == if EmailDomain(email) in ValidEmailDomains then None else Some(UnknownDomainMessage(EmailDomain(email))))
  {
    EmailPatternExact(email);
    if MatchesEmailPattern(email) { EmailSyntaxHasAt(email); }
  }

  /** The domain of `local@host` is the host in lower case. */
  lemma DomainOfAddress(local: string, host: string)
    requires '@' !in local && '@' !in host
    ensures '@' in local + "@" + host && EmailDomain(local + "@" + host) == Lower(host)
  {
    SplitOnce(local, '@', host);
    assert local + "@" + host == local + ['@'] + host;
  }

  /** `host` is `[a-zA-Z0-9.-]+\.[a-zA-Z]{2,}` with its last '.' at `k`. */
  predicate HostShape(host: string, k: int) {
    0 < k && k + 3 <= |host| && host[k] == '.'
    && (forall i :: 0 <= i < k ==> IsHostChar(host[i]))
    && (forall i :: k < i < |host| ==> IsLetter(host[i]))
  }

  /** Every accepted domain is itself a well-formed host. */
  lemma KnownDomainsShaped(d: string)
    requires d in ValidEmailDomains
    ensures exists k :: HostShape(d, k)
  {
    if d in ValidEmailDomains[..5] { FirstDomainsShaped(d); }
    else if d in ValidEmailDomains[5..10] { MiddleDomainsShaped(d); }
    else { assert d in ValidEmailDomains[10..]; LastDomainsShaped(d); }
  }

  /** A name of host characters, a '.', and two or more letters make a well-formed host. */
  lemma DottedHost(name: string, tld: string)
    requires name != [] && forall i :: 0 <= i < |name| ==> IsHostChar(name[i])
    requires |tld| >= 2 && forall i :: 0 <= i < |tld| ==> IsLetter(tld[i])
    ensures HostShape(name + "." + tld, |name|)
  {
    var h := name + "." + tld;
    forall i | 0 <= i < |name| ensures IsHostChar(h[i]) { assert h[i] == name[i]; }
    forall i | |name| < i < |h| ensures IsLetter(h[i]) { assert h[i] == tld[i - |name| - 1]; }
  }

  lemma FirstDomainsShaped(d: string)
    requires d in ValidEmailDomains[..5]
    ensures exists k :: HostShape(d, k)
  {
    if d == "gmail.com" { DottedHost("gmail", "com"); assert d == "gmail" + "." + "com"; }
    else if d == "yahoo.com" { DottedHost("yahoo", "com"); assert d == "yahoo" + "." + "com"; }
    else if d == "hotmail.com" { DottedHost("hotmail", "com"); assert d == "hotmail" + "." + "com"; }
    else if d == "outlook.com" { DottedHost("outlook", "com"); assert d == "outlook" + "." + "com"; }
    else { DottedHost("icloud", "com"); assert d == "icloud" + "." + "com"; }
  }

  lemma MiddleDomainsShaped(d: string)
    requires d in ValidEmailDomains[5..10]
    ensures exists k :: HostShape(d, k)
  {
    if d == "aol.com" { DottedHost("aol", "com"); assert d == "aol" + "." + "com"; }
    else if d == "protonmail.com" { DottedHost("protonmail", "com"); assert d == "protonmail" + "." + "com"; }
    else if d == "nyu.edu" { DottedHost("nyu", "edu"); assert d == "nyu" + "." + "edu"; }
    else if d == "hotmail.co.uk" { DottedHost("hotmail.co", "uk"); assert d == "hotmail.co" + "." + "uk"; }
    else { DottedHost("yahoo.co", "uk"); assert d == "yahoo.co" + "." + "uk"; }
  }

  lemma LastDomainsShaped(d: string)
    requires d in ValidEmailDomains[10..]
    ensures exists k :: HostShape(d, k)
  {
    if d == "live.com" { DottedHost("live", "com"); assert d == "live" + "." + "com"; }
    else if d == "msn.com" { DottedHost("msn", "com"); assert d == "msn" + "." + "com"; }
    else if d == "me.com" { DottedHost("me", "com"); assert d == "me" + "." + "com"; }
    else if d == "mac.com" { DottedHost("mac", "com"); assert d == "mac" + "." + "com"; }
    else { DottedHost("googlemail", "com"); assert d == "googlemail" + "." + "com"; }
  }

  /** Lower-casing keeps a host's shape. */
  lemma LowerKeepsHostShape(host: string, k: int)
    requires HostShape(Lower(host), k)
    ensures HostShape(host, k)
  {
  }

  /**
   * Any well-formed local part at any of the accepted domains, in any letter case, is
   * accepted: "Ann.Lee@GMail.com" passes.
   */
  lemma KnownDomainAccepted(local: string, host: string)
    requires local != [] && forall i :: 0 <= i < |local| ==> IsLocalChar(local[i])
    requires Lower(host) in ValidEmailDomains
    ensures CheckEmail(local + "@" + host) == None
  {
    KnownDomainsShaped(Lower(host));
    var k :| HostShape(Lower(host), k);
    LowerKeepsHostShape(host, k);
    var email := local + "@" + host;
    var at := |local|;
    assert '@' !in local;
    assert '@' !in host by {
      forall i | 0 <= i < |host| ensures IsHostChar(host[i]) {
        if i < k { } else if i == k { } else { }
      }
    }
    assert EmailShape(email, at, at + 1 + k, |email|) by {
      assert forall i :: 0 <= i < |host| ==> email[at + 1 + i] == host[i];
    }
    EmailVerdict(email);
    DomainOfAddress(local, host);
  }

  // ---------------------------------------------------------------- party size

  /** Digits alone are a whole number. */
  lemma DecimalWholeDigits(w: string)
    requires w != [] && AllDigits(w)
    ensures DecimalWhole(w) == Some(DigitsValue(w))
  {
    DigitsArePlain(w);
    assert '.' !in w;
    AllDigitsIsDigitPart(w);
  }

  /** Digits, a point and more digits: the whole part is the digits before the point. */
  lemma DecimalWholeFraction(w: string, frac: string)
    requires w != [] && AllDigits(w) && AllDigits(frac)
    ensures DecimalWhole(w + "." + frac) == Some(DigitsValue(w))
  {
    DigitsArePlain(w);
    DigitsArePlain(frac);
    assert w + "." + frac == w + ['.'] + frac;
    SplitOnce(w, '.', frac);
    AllDigitsIsDigitPart(w);
    if frac != [] { AllDigitsIsDigitPart(frac); }
  }

  /** Text starting with a digit is not one of the words for infinity and NaN. */
  lemma UnsignedDecimal(t: string, w: nat)
    requires t != [] && IsDigit(t[0]) && DecimalWhole(t) == Some(w)
    ensures ParseUnsigned(t) == Some(Finite(w))
  {
    var word := Lower(t);
    assert word[0] == t[0];
    assert word != "inf" && word != "infinity" && word != "nan" by {
      assert "inf"[0] == 'i' && "infinity"[0] == 'i' && "nan"[0] == 'n';
    }
  }

  /** A plain number of people is read as that number. */
  lemma WholeNumberRead(n: nat)
    ensures ParseFloat(NatText(n)) == Some(Finite(n))
  {
    var t := NatText(n);
    DigitsArePlain(t);
    StripNothing(t);
    DecimalWholeDigits(t);
    UnsignedDecimal(t, n);
    assert IsDigit(t[0]);
  }

  /** 1 to 20 people are accepted as typed; 0 is too few and more than 20 too many. */
  lemma PartySizeBounds(n: nat)
    ensures CheckNumPeople(NatText(n))
      == if n < 1 then PeopleRefused(TooFewPeopleMessage)
         else if n > 20 then PeopleRefused(TooManyPeopleMessage)
         else People(n)
  {
    WholeNumberRead(n);
  }

  /** A fractional part is dropped: "5.0" and "5.75" are read as 5. */
  lemma FractionDropped(n: nat, frac: string)
    requires AllDigits(frac)
    ensures ParseFloat(NatText(n) + "." + frac) == Some(Finite(n))
  {
    var w := NatText(n);
    var t := w + "." + frac;
    DigitsArePlain(w);
    DigitsArePlain(frac);
    assert !IsSpace(t[0]) && !IsSpace(t[|t| - 1]) by {
      assert t[0] == w[0];
      if frac != [] { assert t[|t| - 1] == frac[|frac| - 1]; } else { assert t[|t| - 1] == '.'; }
    }
    StripNothing(t);
    DecimalWholeFraction(w, frac);
    UnsignedDecimal(t, n);
    assert t[0] == w[0];
  }

  /** A minus sign in front of an unsigned number negates it. */
  lemma NegatedRead(w: string, n: nat)
    requires Strip("-" + w) == "-" + w && ParseUnsigned(w) == Some(Finite(n))
    ensures ParseFloat("-" + w) == Some(Finite(-(n as int)))
  {
    hide ParseUnsigned, Strip;
    var t := "-" + w;
    assert t[0] == '-' && t[1..] == w;
  }

  /** A negative number of people is too few. */
  lemma NegativePartyRefused(n: nat)
    ensures CheckNumPeople("-" + NatText(n)) == PeopleRefused(TooFewPeopleMessage)
  {
    var w := NatText(n);
    var t := "-" + w;
    DigitsArePlain(w);
    assert !IsSpace(t[0]) && !IsSpace(t[|t| - 1]) by {
      assert t[|t| - 1] == w[|w| - 1];
    }
    StripNothing(t);
    DecimalWholeDigits(w);
    UnsignedDecimal(w, n);
    hide ParseUnsigned, DecimalWhole, Strip;
    NegatedRead(w, n);
  }

  /** Where `float` gives no infinity, the check as written and the corrected check agree. */
  lemma AsWrittenAgrees(value: string)
    requires ParseFloat(value) != Some(Infinite)
    ensures CheckNumPeopleAsWritten(value) == Some(CheckNumPeople(value))
  {
  }

  /** "inf" escapes `validate_num_people` as OverflowError; the corrected check refuses it as not a number. */
  lemma InfinityEscapes()
    ensures CheckNumPeopleAsWritten("inf") == None
    ensures CheckNumPeople("inf") == PeopleRefused(InvalidNumberMessage("inf"))
  {
    assert ParseFloat("inf") == Some(Infinite) by {
      StripNothing("inf");
      LowerNothing("inf");
      assert "inf"[0] != '-' && "inf"[0] != '+';
    }
  }

  // ---------------------------------------------------------------- location and cuisine

  /** None of the accepted places contains a trigger word. */
  lemma LocationsHaveNoTriggerWord(loc: string)
    requires loc in ValidLocations
    ensures forall w | w in TriggerWords :: !Contains(loc, w)
  {
    LocationLetters(loc);
    forall w | w in TriggerWords
      ensures !Contains(loc, w)
    {
      TriggerWordLetters(w);
      if 'b' in w { NotContainsMissingChar(loc, w, 'b'); }
      else if 'p' in w { NotContainsMissingChar(loc, w, 'p'); }
      else if 'u' in w { NotContainsMissingChar(loc, w, 'u'); }
      else if 'f' in w { NotContainsMissingChar(loc, w, 'f'); }
      else if 'd' in w { NotContainsMissingChar(loc, w, 'd'); }
      else if 'l' in w { NotContainsMissingChar(loc, w, 'l'); }
      else if 'g' in w { NotContainsMissingChar(loc, w, 'g'); }
      else if 'e' in loc { NotContainsMissingChar(loc, w, 'a'); }
      else { NotContainsMissingChar(loc, w, 'e'); }
    }
  }

  /** The letters the accepted places are spelled with. */
  predicate PlaceChar(c: char) {
    c == 'm' || c == 'a' || c == 'n' || c == 'h' || c == 't' || c == 'y' || c == 'e' || c == 'w'
    || c == ' ' || c == 'o' || c == 'r' || c == 'k' || c == 'c' || c == 'i'
  }

  lemma PlaceChars(loc: string)
    requires loc in ValidLocations
    ensures forall i :: 0 <= i < |loc| ==> PlaceChar(loc[i])
    ensures 'e' !in loc || 'a' !in loc
  {
  }

  /** Letters no accepted place has; and no place has both an 'e' and an 'a'. */
  lemma LocationLetters(loc: string)
    requires loc in ValidLocations
    ensures 'b' !in loc && 'p' !in loc && 'u' !in loc && 'f' !in loc
    ensures 'd' !in loc && 'l' !in loc && 'g' !in loc
    ensures 'e' !in loc || 'a' !in loc
  {
    PlaceChars(loc);
  }

  /** Every trigger word has one of the letters above, or both 'e' and 'a'. */
  lemma TriggerWordLetters(w: string)
    requires w in TriggerWords
    ensures 'b' in w || 'p' in w || 'u' in w || 'f' in w || 'd' in w || 'l' in w || 'g' in w
      || ('e' in w && 'a' in w)
  {
    if w in TriggerWords[..7] { EarlyTriggerWordLetters(w); }
    else { assert w in TriggerWords[7..]; LateTriggerWordLetters(w); }
  }

  lemma EarlyTriggerWordLetters(w: string)
    requires w in TriggerWords[..7]
    ensures 'b' in w || 'p' in w || 'u' in w || 'f' in w || 'd' in w || ('e' in w && 'a' in w)
  {
    if w == "nearby" { assert w[4] == 'b'; }
    else if w == "places" { assert w[0] == 'p'; }
    else if w == "restaurant" { assert w[5] == 'u'; }
    else if w == "food" { assert w[0] == 'f'; }
    else if w == "eat" { assert w[0] == 'e' && w[1] == 'a'; }
    else { assert w == "dine" || w == "dinner"; assert w[0] == 'd'; }
  }

  lemma LateTriggerWordLetters(w: string)
    requires w in TriggerWords[7..]
    ensures 'b' in w || 'd' in w || 'l' in w || 'g' in w
  {
    if w == "lunch" || w == "help" { assert w[0] == 'l' || w[2] == 'l'; }
    else if w == "breakfast" { assert w[0] == 'b'; }
    else if w == "recommend" { assert w[8] == 'd'; }
    else if w == "suggestions" { assert w[2] == 'g'; }
    else { assert w[3] == 'g'; }
  }

  /** Lower-casing twice is lower-casing once. */
  lemma LowerIdempotent(s: string)
    ensures Lower(Lower(s)) == Lower(s)
  {
  }

  /** A place is stored exactly when it is one of the five accepted places, in any letter case. */
  lemma LocationAcceptedIff(input: string)
    ensures CheckLocation(input).Store? <==> Lower(input) in ValidLocations
  {
    if Lower(input) in ValidLocations {
      LocationsHaveNoTriggerWord(Lower(input));
    }
  }

  lemma UpperOfLower(c: char)
    ensures UpperChar(LowerChar(c)) == UpperChar(c)
  {
  }

  /** `capitalize()` only looks at the letters, not at their case. */
  lemma CapitalizeIgnoresCase(a: string, b: string)
    requires Lower(a) == Lower(b)
    ensures Capitalize(a) == Capitalize(b)
  {
    if a != [] {
      assert LowerChar(a[0]) == LowerChar(b[0]);
      UpperOfLower(a[0]);
      UpperOfLower(b[0]);
      assert Lower(a[1..]) == Lower(a)[1..];
      assert Lower(b[1..]) == Lower(b)[1..];
    }
  }

  /** A word without capitals is capitalised by raising its first letter. */
  lemma CapitalizeLowerWord(c: string)
    requires c != [] && forall i :: 0 <= i < |c| ==> !('A' <= c[i] <= 'Z')
    ensures Capitalize(c) == [UpperChar(c[0])] + c[1..]
  {
    LowerNothing(c[1..]);
  }

  /**
   * A supported cuisine is stored as its lower-case name with the first letter raised,
   * whatever case it was typed in: "CHINESE" and "chinese" are both stored as "Chinese".
   */
  lemma CuisineStoredCapitalized(input: string)
    ensures CheckCuisine(input).Store? <==> Lower(input) in ValidCuisines
    ensures CheckCuisine(input).Store? ==>
      var c := Lower(input);
      c != [] && CheckCuisine(input).value == [UpperChar(c[0])] + c[1..]
  {
    if Lower(input) in ValidCuisines {
      var c := Lower(input);
      assert c != [];
      LowerIdempotent(input);
      CapitalizeIgnoresCase(input, c);
      CapitalizeLowerWord(c);
    }
  }
}

# Dining concierge code hook, modelled in Dafny

This project models the Lex code hook of a dining-suggestions chatbot (`lambda-functions/LF1.py`).
The bot collects six fields, one per turn, in a fixed order: location, cuisine, date, time,
party size and e-mail address. Each answer is checked, and a confirmed answer is written to the
session attributes. Once all six fields are confirmed, the bot hands a reservation record to a
queue and closes the conversation. The other intents (greeting, thank-you, fallback and any
other name) are closed at once.

The model is organised by the program's own parts:

- `text.dfy` (`Text`): the Python string built-ins the code relies on: `strip`, `lower`,
  `capitalize`, `split`, `int()`, `str(n)`, zero-padded formatting and substring search.
- `calendar.dfy` (`Calendar`): proleptic Gregorian dates, `date + timedelta(days=1)`, date
  order and `strftime('%Y-%m-%d')`.
- `strptime.dfy` (`Strptime`, `StrptimeFacts`): `datetime.strptime` for the formats the bot
  uses. It is modelled as CPython's regular-expression search: the alternatives of a numeric
  directive are tried in CPython's order, `\s+` is greedy, and the "unconverted data
  remains" check comes after the search. Month names are tried in calendar order rather than
  CPython's longest-first order. This gives the same result, because at most one name
  matches at a position (`StrptimeFormats.NameMisses`). Two round trips are proved: ISO
  dates and `HH:MM`.
- `strptime_formats.dfy` (`StrptimeFormats`): what the month/day formats read back from
  dates written the way people type them: `"march 5"` and `"5 mar"` give that day in 1900;
  `"3/5/2025"` and `"3/5/25"` give the date, with `%y` mapping 00..68 to 20xx and
  69..99 to 19xx, and `"march 5 2025"` and `"5 mar 2025"` give the date. All ten
  formats after ISO are covered.
- `date_validation.dfy` (`DateValidation`): `validate_date`. `CheckDate` is the
  specification function. `ValidateDate` and `TryFormats` are the method with the
  early-return loop over the formats, proved equal to it.
- `time_validation.dfy` (`TimeValidation`, `TimeFacts`): `parse_time_input` and
  `validate_time`.
- `fields.dfy` (`FieldValidation`, `FieldFacts`): the location, cuisine, party-size and
  e-mail checks.
- `dialog.dfy` (`Dialog`): one turn of `handle_dining` and the dispatch of `lambda_handler`.
  - `DiningTurn` and its per-field `...Step` functions specify the turn.
  - `HandleDining`, `Answer`, the `...Answer` methods and `Finish` follow the source's
    statements, with its local `session_attrs` updated in place. Each is proved equal to its
    specification function.
- `dialog_facts.dfy` (`DialogFacts`): what a turn does to the session.
  - An accepted answer confirms exactly the field being collected.
  - Nothing confirmed earlier is lost or changed.
  - A refused answer leaves the session as it was and asks again.
  - The bot closes exactly when all six fields are confirmed, and otherwise asks for the
    first missing one, so it never delegates.
  - The queue receives the six confirmed values.

The environment is explicit:
- `Clock` holds today's date and the current hour and minute, read from `datetime.now(EST)`.
- `Env.queueConfigured` says whether `SQS_QUEUE_URL` is non-empty.
- `Env.sendFails` says whether `send_message` raises.
- A turn returns its response together with the reservation handed to the queue, if any.
- Session attributes are a `map<string, string>`. A field is confirmed when its key holds a
  non-empty text, which is how Python's truthiness reads `session_attrs.get(key)`.

## Model

| member | source | states |
|---|---|---|
| Dialog.GetSlotValue | lambda-functions/LF1.py:51-55 | a slot value is found exactly when the slot is present with a non-empty interpreted value, and it is that value |
| Dialog.FirstMissing | lambda-functions/LF1.py:196-210 | the field returned is unconfirmed and every field before it in the order is confirmed; none is returned exactly when all six are confirmed |
| Dialog.LocationAnswer | lambda-functions/LF1.py:214-226 | the location branch as written equals `LocationStep` (a trigger word asks again, a known place is stored as typed, anything else is refused) |
| Dialog.CuisineAnswer | lambda-functions/LF1.py:228-235 | the cuisine branch as written equals `CuisineStep` |
| Dialog.DateAnswer | lambda-functions/LF1.py:237-253 | the date branch as written (slot value first, then the typed text when it differs) equals `DateStep` |
| Dialog.TimeAnswer | lambda-functions/LF1.py:255-271 | the time branch as written (slot value as is, else the normalised text, then `validate_time` against the confirmed date) equals `TimeStep` |
| Dialog.Answer | lambda-functions/LF1.py:212-285 | the branch for the field being collected equals `StepFor`, including the party-size and e-mail branches |
| Dialog.Finish | lambda-functions/LF1.py:288-352 | the ending as written equals `Conclude`; the final `delegate` is unreachable |
| Dialog.Conclude | lambda-functions/LF1.py:288-352 | the attributes are kept. It closes exactly when all six fields are confirmed, and otherwise elicits the first missing field with its fixed question. It fails exactly when a queue is configured and sending fails. It sends exactly when it closes with a queue configured, and what it sends is the six confirmed values. A failed close carries the apology message; a fulfilled close carries the confirmation built from the cuisine, the party size, the typed date (`displayDate`, or the confirmed ISO date when none was kept), the time through `PrettyTime` and the email |
| Dialog.HandleDining | lambda-functions/LF1.py:181-352 | `handle_dining` as written equals `DiningTurn`, the one-turn function the lemmas of `DialogFacts` are about |
| Dialog.LambdaHandler | lambda-functions/LF1.py:354-367 | the dining intent runs the turn. Every other intent closes as fulfilled, with empty session attributes, its own name, nothing sent, and the greeting, thank-you, fallback or default message |
| DialogFacts.KeysDistinct | lambda-functions/LF1.py:189-194 | the six confirmation keys and `displayDate` are pairwise different |
| DialogFacts.AcceptConfirms | lambda-functions/LF1.py:214-285 | an accepted answer writes a non-empty value under its own field's key, and no other key except `displayDate` for the date |
| DialogFacts.DateStepMeaning | lambda-functions/LF1.py:237-253 | an accepted date is stored as the ISO text of a date that is not in the past, read from the slot value or the typed text, with the typed text as `displayDate`. The slot value comes first: whenever its reading is accepted, that date is the one stored. When both readings fail, the error about the first candidate is repeated, and a repeat always carries that error |
| DialogFacts.TimeStepMeaning | lambda-functions/LF1.py:255-271 | a stored time is the slot value unchanged, or with no slot value the `parse_time_input` result. It has a valid hour and minute outside the closed hours. Text that cannot be read gets the "not a valid time" message |
| DialogFacts.AcceptedTurn | lambda-functions/LF1.py:212-285 | after an accepted answer the session sent back is the old one with the answer's writes laid over it |
| DialogFacts.RefusedTurn | lambda-functions/LF1.py:212-285 | a refused answer elicits the same slot again with the validator's message, the session unchanged and nothing sent |
| DialogFacts.UnchangedTurn | lambda-functions/LF1.py:212 | outside a dialog code hook, with nothing left to collect, or after a refusal, the session is sent back unchanged |
| DialogFacts.TurnWritesOnlyCollectedField | lambda-functions/LF1.py:196-285 | a turn keeps every key. It changes only the field being collected (and `displayDate` for the date), and changes nothing outside a dialog code hook |
| DialogFacts.TurnProgress | lambda-functions/LF1.py:196-285 | on a dialog code hook, a turn either asks for the same field again with the session unchanged, or leaves that field and all earlier ones confirmed |
| DialogFacts.AsksForFirstMissing | lambda-functions/LF1.py:288-352 | no turn delegates. A turn closes exactly when all six fields of the session it sends back are confirmed, and otherwise asks for the first one still missing |
| DialogFacts.QueueOutcome | lambda-functions/LF1.py:297-314 | a reservation is sent exactly when the turn closes with a queue configured. It carries the six confirmed values, and the turn fails exactly when sending fails |
| DialogFacts.PrettyTimeTwelveHour | lambda-functions/LF1.py:317-321 | a confirmed `HH:MM` is shown on the 12-hour clock: 0 becomes 12 AM, 12 becomes 12 PM, and 13 to 23 lose 12 |
| FieldValidation.CheckLocation | lambda-functions/LF1.py:214-226 | the question is asked again exactly on a trigger word; a stored location is the text as typed and is a known place in lower case |
| FieldFacts.LocationAcceptedIff | lambda-functions/LF1.py:218-222 | a location is stored exactly when its lower-cased text is one of the five places |
| FieldFacts.LocationsHaveNoTriggerWord | lambda-functions/LF1.py:215-221 | no accepted place contains a trigger word, so the trigger check never turns away a known place |
| FieldValidation.CheckCuisine | lambda-functions/LF1.py:228-235 | a stored cuisine is, ignoring case, the typed text, and it is one of the five cuisines |
| FieldFacts.CuisineStoredCapitalized | lambda-functions/LF1.py:229-230 | a cuisine is stored exactly when it is supported in any letter case, and it is stored with the first letter in upper case and the rest in lower case |
| FieldValidation.CheckNumPeople | lambda-functions/LF1.py:163-173 | a party size is accepted exactly when `float` reads a finite number whose truncation lies in 1..20, and the accepted count is that number. A finite number below 1 gets the too-few message, one above 20 the too-many message, and text `float` does not read as a finite number (including "nan" and "inf") gets the not-a-number message naming the text |
| FieldValidation.CheckNumPeopleAsWritten | lambda-functions/LF1.py:163-173 | the source's check: an exception escapes exactly on an infinity, and an accepted count lies in 1..20 |
| FieldFacts.PartySizeBounds | lambda-functions/LF1.py:166-171 | a whole number n is accepted for 1..20. 0 gets the too-few message and more than 20 gets the too-many message |
| FieldFacts.WholeNumberRead | lambda-functions/LF1.py:166 | `float` reads the decimal text of n as n, so the stored `str(int(float(...)))` of an accepted count is its decimal text |
| FieldFacts.FractionDropped | lambda-functions/LF1.py:166 | "n.ddd" is read as n: the fraction is truncated away |
| FieldFacts.NegativePartyRefused | lambda-functions/LF1.py:166-168 | "-n" is refused with the too-few message |
| FieldFacts.AsWrittenAgrees | lambda-functions/LF1.py:163-173 | wherever `float` gives no infinity, the check as written and the corrected check agree |
| FieldFacts.InfinityEscapes | lambda-functions/LF1.py:166-172 | "inf" makes the check as written raise past its handler, while the corrected check refuses it as not a number |
| FieldFacts.EmailPatternExact | lambda-functions/LF1.py:58-59 | the scan (first '@', last '.') accepts exactly the texts the e-mail regular expression matches |
| FieldFacts.EmailVerdict | lambda-functions/LF1.py:57-64 | a text that does not match gets the syntax message. A matching address with an unknown domain gets the domain message naming the lower-cased domain. Any other address is accepted |
| FieldFacts.DomainOfAddress | lambda-functions/LF1.py:61 | the domain of `local@host` is `host` in lower case |
| FieldFacts.KnownDomainAccepted | lambda-functions/LF1.py:57-64 | any well-formed local part at any of the fifteen domains, in any letter case, is accepted |
| FieldFacts.KnownDomainsShaped | lambda-functions/LF1.py:12-16 | every domain of the allow-list is itself a host the regular expression accepts |
| DialogFacts.EmailWrites | lambda-functions/LF1.py:280-283 | an accepted e-mail address is stored in lower case and is non-empty |
| DateValidation.CheckDate | lambda-functions/LF1.py:66-101 | every accepted date is a real date that is not before today |
| DateValidation.TryFormat | lambda-functions/LF1.py:89-99 | one format's verdict: an accepted date is a real date not before today |
| DateValidation.FirstFormat | lambda-functions/LF1.py:88-99 | the verdict of the first format that parses; an accepted date is not before today |
| DateValidation.ValidateDate | lambda-functions/LF1.py:66-101 | `validate_date` as written equals `CheckDate` |
| DateValidation.TryFormats | lambda-functions/LF1.py:88-99 | the loop with its early returns equals `FirstFormat` over the formats in order |
| DateFacts.SpecialWords | lambda-functions/LF1.py:68-76 | "today" and "tomorrow", in any case and with surrounding whitespace, are accepted. Tomorrow is exactly one day later on the day count, across month and year ends. The three past words are refused |
| DateFacts.IsoAccepted | lambda-functions/LF1.py:79-85 | an ISO date is accepted as exactly that date, or refused as past when it is before today |
| DateFacts.FirstSuccessWins | lambda-functions/LF1.py:88-99 | when the formats before number k raise and format k parses, format k's verdict is the result |
| DateFacts.NoFormatParses | lambda-functions/LF1.py:88-101 | when no format parses, the loop gives no verdict |
| DateFacts.YearlessTakesTodaysYear | lambda-functions/LF1.py:88-97 | a date read by a format without a year is placed in today's year: accepted, or refused with the past-date message naming the text |
| DateFacts.UnreadableDate | lambda-functions/LF1.py:101 | text no branch reads gets the "not a valid date" message naming it |
| Calendar.Tomorrow | lambda-functions/LF1.py:74 | the next day is a real date after the given one |
| Calendar.TomorrowIsNextDay | lambda-functions/LF1.py:74 | the next day's ordinal is the day's ordinal plus one |
| Strptime.ParseDate | lambda-functions/LF1.py:80 | whatever `strptime(...).date()` returns is a real date |
| StrptimeFacts.IsoRoundTrip | lambda-functions/LF1.py:80 | `strptime(d.strftime('%Y-%m-%d'), '%Y-%m-%d')` gives d back for every year up to 9999, with years below 1000 written padded as `FormatIso` writes them |
| StrptimeFacts.ClockRoundTrip | lambda-functions/LF1.py:318-319 | `strptime` with `%H:%M` reads back the hour and minute of a zero-padded `HH:MM` |
| TimeValidation.MatchTwelveHour | lambda-functions/LF1.py:112 | a 12-hour reading has an hour and a minute below 100 |
| TimeFacts.ClockTextPassesThrough | lambda-functions/LF1.py:108-109 | text already of the form `H:MM` or `HH:MM` is returned unchanged, without padding |
| TimeFacts.TwelveHourReading | lambda-functions/LF1.py:112-121 | "H[:MM][ ]am/pm" becomes the 24-hour `HH:MM`: "pm" adds 12 to every hour but 12, and "12am" is hour 0 |
| TimeFacts.MidnightAndNoon | lambda-functions/LF1.py:117-121 | "12am" is "00:00" and "12pm" is "12:00" |
| TimeFacts.BareHourReading | lambda-functions/LF1.py:124-129 | a bare one- or two-digit number n is read as `BareHour(n)` o'clock, where `BareHour` adds 12 to 1..9 and keeps every other n |
| TimeFacts.OutputShape | lambda-functions/LF1.py:103-131 | every result is `H:MM`/`HH:MM`, or a three-digit hour and two-digit minute |
| TimeFacts.ParseTimeIdempotent | lambda-functions/LF1.py:103-131 | feeding a result back in returns it unchanged whenever it has at most five characters, and returns nothing otherwise |
| TimeFacts.NinetyNinePm | lambda-functions/LF1.py:112-121 | "99pm" becomes "111:00", which is not read back |
| TimeValidation.ClockFields | lambda-functions/LF1.py:136-143 | a read time has an hour in 0..23 and a minute in 0..59; text without ':' is never read, and read text splits at ':' into exactly two pieces |
| TimeValidation.CheckTime | lambda-functions/LF1.py:133-161 | an accepted time is read and is outside the closed hours; an unreadable one gets the "not a valid time" message naming it |
| TimeFacts.ClockFieldsRoundTrip | lambda-functions/LF1.py:136-143 | the hour and minute of every zero-padded `HH:MM` of a real time of day are read back |
| TimeFacts.ClosedHoursRejected | lambda-functions/LF1.py:145-146 | a time gets the closed-hours message exactly when its hour is 2 to 6, whatever the date |
| TimeFacts.TodayNeedsLaterTime | lambda-functions/LF1.py:148-155 | for a reservation today, an open-hours time is accepted exactly when it is later than now, and refused with the time-passed message otherwise |
| TimeFacts.OtherDayIgnoresClock | lambda-functions/LF1.py:148-159 | with no date, an empty date, a date that is not `%Y-%m-%d` text, or another day's date, every open-hours time is accepted |
| Text.Strip | lambda-functions/LF1.py:68 | the result is the slice of the text after its leading whitespace run; everything before and after that slice is whitespace, and the result neither starts nor ends with whitespace |
| FieldValidation.CheckEmail | lambda-functions/LF1.py:57-64 | an address that fails the pattern gets the invalid-address message; an address is accepted only when it passes the pattern, contains '@' and its lower-cased domain is one of the known domains |
| FieldValidation.ParseFloat | lambda-functions/LF1.py:166 | a number is read only from text that is not blank after stripping, and a negative truncation only from text whose stripped form starts with '-' |
| TimeValidation.ParseTimeInput | lambda-functions/LF1.py:103-131 | every conversion ends in ':' followed by two digits, with at least one character before the colon |
| TimeFacts.UnpaddedClockRead | lambda-functions/LF1.py:103-143 | an unpadded `H:MM` of a real time of day passes through the conversion unchanged and its hour and minute are read back |
| Dialog.DiningTurn | lambda-functions/LF1.py:181-352 | a turn either closes or elicits a slot, and always answers for the intent of the event |
| Dialog.ReservationOf | lambda-functions/LF1.py:297-310 | the message sent to the queue carries six non-empty confirmed values |
| Dialog.PrettyTime | lambda-functions/LF1.py:317-321 | the shown time is either the confirmed text unchanged or ends in " AM" or " PM" |
| StrptimeFormats.NameMisses | lambda-functions/LF1.py:88 | when one full month name (or abbreviation) sits at a position, no other month's name matches there, so the order in which names are tried does not matter |
| StrptimeFormats.NameDayRead | lambda-functions/LF1.py:88-90 | `%B %d` reads back "<month name> <day>" and `%b %d` reads back "<abbreviation> <day>" as that month and day of the default year 1900 |
| StrptimeFormats.DayNameRead | lambda-functions/LF1.py:88-90 | `%d %B` and `%d %b` read back "<day> <month name>" as that month and day of 1900 |
| StrptimeFormats.SlashDateRead | lambda-functions/LF1.py:88-90 | `%m/%d/%Y` reads back every real date written as month/day/four-digit year |
| StrptimeFormats.ShortSlashDateRead | lambda-functions/LF1.py:88-90 | `%m/%d/%y` reads back month/day/two-digit year, with years 00..68 as 2000..2068 and 69..99 as 1969..1999 |
| StrptimeFormats.NameDayYearRead | lambda-functions/LF1.py:88-90 | `%B %d %Y` and `%b %d %Y` read back "<month name> <day> <four-digit year>" as that date, for every real date up to year 9999 |
| StrptimeFormats.DayNameYearRead | lambda-functions/LF1.py:88-90 | `%d %B %Y` and `%d %b %Y` read back "<day> <month name> <four-digit year>" as that date, for every real date up to year 9999 |
| DateFacts.MonthNameDayThisYear | lambda-functions/LF1.py:88-97 | a typed "<month name> <day>" is taken as that day of this year: rejected with the past-date message naming the text when that day has passed, accepted otherwise |
| Text.StripIdempotent | lambda-functions/LF1.py:68 | stripping twice is stripping once |
| Text.Lower | lambda-functions/LF1.py:218 | each character is lower-cased in place |
| Text.Capitalize | lambda-functions/LF1.py:230 | the result has the same letters ignoring case, with the first in upper case |
| Text.SplitOnce | lambda-functions/LF1.py:136 | splitting at the only separator gives the text on either side |
| Text.ParseIntDigits | lambda-functions/LF1.py:139-140 | `int()` of a run of digits is its decimal value |
| Text.NatText | lambda-functions/LF1.py:276 | `str(n)` is the digits of n with no leading zero |
| Text.Padded | lambda-functions/LF1.py:121 | `f"{n:02d}"` is digits whose value is n, at least two long |

## Left out

- I/O is not modelled: the SQS client, `json.dumps`, `print` and the shape of the Lex JSON. Sending a reservation is an output value plus the `sendFails` input. A configured queue URL is the `queueConfigured` flag.
- The source reads `datetime.now(EST)` twice, once in `validate_date` and once in `validate_time`. The model uses one `Clock` value for both, so the two readings cannot fall on either side of midnight.
- The generic exception handler of `lambda_handler` (lines 368-377) is not modelled. Three things reach it:
  - malformed events with missing keys or null slots, which the model's `Event` type rules out;
  - the OverflowError from "inf" as a party size, which appears under Findings and is replaced by the corrected check in the dialog;
  - the same OverflowError from a party size written with 309 or more digits, which `float()` rounds to an infinity. The model keeps such numbers exact (see the next line).
- FieldValidation.CheckNumPeopleAsWritten: a party size of 309 or more digits is answered with the "too many people" message (or "too few" after a minus sign), whereas Python's `float()` rounds it to an infinity, so `int()` raises the OverflowError of the Findings row. The model's `ParseFloat` reads digit strings exactly and has no floating-point overflow.
- Slots are reduced to their `interpretedValue`; the rest of Lex's slot record is not read by the source.
- `handle_dining` mutates the event's own `sessionAttributes` dictionary in place. The model's method changes a local copy, because nothing reads the event after the call.
- Text.Lower, Text.Capitalize: only ASCII letters change case. Python also maps other Unicode letters.
- Text.ParseInt, TimeValidation.IsClockText, TimeValidation.MatchTwelveHour, TimeValidation.IsBareHour, FieldValidation.ParseFloat, Strptime.Cands: only the ASCII digits are digits. Python's `int()` and `float()` accept every Unicode decimal digit, and so does `\d`, both in the time patterns (lines 112 and 124) and in `strptime`'s `%d %m %Y %y %H %M`.
- FieldValidation.ParseFloat: exponents ("1e1") are refused as not a number, whereas Python's `float()` reads them. Hexadecimal ("0x10") is refused by both; Python reads it only with `float.fromhex`. Finite values are kept only as their truncation, so floating-point rounding of very long digit strings is not modelled.
- Calendar.IsValid: years above 9999 are not refused, whereas Python's `date` stops at `MAXYEAR`.
- Calendar.FormatIso: years below 1000 are zero-padded to four digits, whereas Python's `strftime('%Y-%m-%d')` on glibc writes them unpadded (year 5 gives "5-01-01"). This does not reach the dialog, because an accepted date is never before today.
- Strptime.Cands: only the directives the source uses are modelled, with English month names. Locale-dependent names are left out.
- LF0.py (the HTTP proxy), LF2.py (the suggestion worker) and other-scripts/load_opensearch.py are not part of this model. They are I/O plumbing around other AWS services.

## Findings

| source | as written | input that shows it | evidently intended | confidence | as-written member | corrected member |
|---|---|---|---|---|---|---|
| lambda-functions/LF1.py:163-173 | `int(float(value))` on an infinity raises OverflowError, which the `except (ValueError, TypeError)` clause does not catch. The exception leaves `handle_dining`, and `lambda_handler` answers with its generic "something unexpected happened" message and the FallbackIntent, abandoning the dining dialog (`FieldFacts.InfinityEscapes`) | "inf" typed as the number of people | refuse it with the "not a valid number" message and ask again, as for any other text that is not a number | high; not executed | FieldValidation.CheckNumPeopleAsWritten | FieldValidation.CheckNumPeople |

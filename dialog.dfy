/**
 * The Lex code hook of the dining concierge: one turn of the slot-filling dialog for the
 * dining intent (`handle_dining`), the responses it builds, and the intent dispatch
 * (`lambda_handler`).
 *
 * The session attributes are the dialog's only memory. A field counts as confirmed when
 * its key holds a non-empty text, the way Python's truthiness reads `session_attrs.get(key)`.
 */
module Dialog {
  import opened Wrappers
  import opened Text
  import opened Calendar
  import opened Strptime
  import opened DateValidation
  import opened TimeValidation
  import opened FieldValidation

  /** `sessionAttributes`: text keys to text values. */
  type Attrs = map<string, string>

  /** The intent's slots: for each slot name, its `interpretedValue` when Lex filled one in. */
  type Slots = map<string, Option<string>>

  /** The parts of a Lex event the code hook reads; absent attributes, source and transcript are empty. */
  datatype Event = Event(intent: string, slots: Slots, attrs: Attrs, source: string, transcript: string)

  /** The world outside the event: the clock, whether a queue URL is configured, and whether sending to it fails. */
  datatype Env = Env(clock: Clock, queueConfigured: bool, sendFails: bool)

  datatype FulfillmentState = Fulfilled | Failed

  /** The three dialog actions the hook can answer with (`close`, `elicit_slot`, `delegate`). */
  datatype Response =
    | Close(attrs: Attrs, intent: string, state: FulfillmentState, message: string)
    | ElicitSlot(attrs: Attrs, intent: string, slots: Slots, slotToElicit: string, message: string)
    | Delegate(attrs: Attrs, intent: string, slots: Slots)

  /** The message body put on the queue once every field is confirmed. */
  datatype Reservation = Reservation(location: string, cuisine: string, date: string, time: string,
                                     people: string, email: string)

  /** What one invocation does: its response, and the reservation handed to the queue, if any. */
  datatype Turn = Turn(response: Response, sent: Option<Reservation>)

  /** The six fields in the order they are collected. */
  datatype Field = Location | Cuisine | DiningDate | DiningTime | NumberOfPeople | Email

  const Fields: seq<Field> := [Location, Cuisine, DiningDate, DiningTime, NumberOfPeople, Email]

  /** The session attribute holding a confirmed field. */
  function Key(f: Field): string {
    match f
    case Location => "confirmedLocation"
    case Cuisine => "confirmedCuisine"
    case DiningDate => "confirmedDate"
    case DiningTime => "confirmedTime"
    case NumberOfPeople => "confirmedPeople"
    case Email => "confirmedEmail"
  }

  /** The Lex slot a field is asked for with. */
  function SlotName(f: Field): string {
    match f
    case Location => "Location"
    case Cuisine => "Cuisine"
    case DiningDate => "DiningDate"
    case DiningTime => "DiningTime"
    case NumberOfPeople => "NumberOfPeople"
    case Email => "Email"
  }

  /** The question that asks for a field the first time. */
  function Prompt(f: Field): string {
    match f
    case Location => LocationPrompt
    case Cuisine => "What cuisine are you in the mood for? I support Chinese, Italian, Japanese, Mexican, and Indian."
    case DiningDate => "When would you like the reservation for?"
    case DiningTime => "What time would you like to dine?"
    case NumberOfPeople => "How many people will be dining?"
    case Email => "Almost done! What email should I send the suggestions to?"
  }

  const DisplayDateKey := "displayDate"
  const QueueFailureMessage := "I'm sorry, something went wrong. Please try again in a moment."

  function UnparseableTimeMessage(input: string): string {
    "Sorry, '" + input + "' is not a valid time. Please enter a valid time."
  }

  /** `session_attrs.get(key)` is truthy. */
  predicate Truthy(attrs: Attrs, key: string) {
    key in attrs && attrs[key] != ""
  }

  predicate Confirmed(attrs: Attrs, f: Field) {
    Truthy(attrs, Key(f))
  }

  /** `session_attrs.get(key)`. */
  function Get(attrs: Attrs, key: string): (r: Option<string>)
    ensures r.Some? <==> key in attrs
  {
    if key in attrs then Some(attrs[key]) else None
  }

  /** `get_slot_value(slots, name)`: the slot's interpreted value when it is present and non-empty. */
  function GetSlotValue(slots: Slots, name: string): (r: Option<string>)
    ensures r.Some? <==> name in slots && slots[name].Some? && slots[name].value != ""
    ensures r.Some? ==> r.value == slots[name].value
  {
    if name in slots && slots[name].Some? && slots[name].value != "" then slots[name] else None
  }

  /** The first field, in collecting order, that is not confirmed yet. */
  function FirstMissing(attrs: Attrs): (r: Option<Field>)
    ensures r.Some? ==> (!Confirmed(attrs, r.value)
      && forall i :: 0 <= i < Index(r.value) ==> Confirmed(attrs, Fields[i]))
    ensures r.None? <==> forall f :: Confirmed(attrs, f)
  {
    if !Confirmed(attrs, Location) then Some(Location)
    else if !Confirmed(attrs, Cuisine) then Some(Cuisine)
    else if !Confirmed(attrs, DiningDate) then Some(DiningDate)
    else if !Confirmed(attrs, DiningTime) then Some(DiningTime)
    else if !Confirmed(attrs, NumberOfPeople) then Some(NumberOfPeople)
    else if !Confirmed(attrs, Email) then Some(Email)
    else None
  }

  /** A field's place in the collecting order. */
  function Index(f: Field): (i: nat)
    ensures i < |Fields| && Fields[i] == f
  {
    match f
    case Location => 0
    case Cuisine => 1
    case DiningDate => 2
    case DiningTime => 3
    case NumberOfPeople => 4
    case Email => 5
  }

  /** The outcome of checking one answer: the attributes to write, or the message to ask again with. */
  datatype Step = Accept(writes: Attrs) | Reprompt(message: string)

  /** The date branch: the slot's value first; when that fails and the typed text differs, the typed text; the first error otherwise. */
  function DateStep(input: string, slots: Slots, today: Date): Step
    requires IsValid(today)
  {
    var slotDate := GetSlotValue(slots, SlotName(DiningDate));
    var first := CheckDate(if slotDate.Some? then slotDate.value else input, today);
    match first
    case Accepted(d) => Accept(map[Key(DiningDate) := FormatIso(d), DisplayDateKey := input])
    case Rejected(message) =>
      if slotDate.Some? && slotDate.value != input then
        match CheckDate(input, today)
        case Accepted(d) => Accept(map[Key(DiningDate) := FormatIso(d), DisplayDateKey := input])
        case Rejected(_) => Reprompt(message)
      else Reprompt(message)
  }

  /** The time branch: the slot's value as it is, or else the typed text normalised; then the time check against the confirmed date. */
  function TimeStep(input: string, slots: Slots, attrs: Attrs, clock: Clock): Step {
    var slotTime := GetSlotValue(slots, SlotName(DiningTime));
    var time := if slotTime.Some? then slotTime else ParseTimeInput(input);
    if time.None? || time.value == "" then Reprompt(UnparseableTimeMessage(input))
    else match CheckTime(time.value, Get(attrs, Key(DiningDate)), clock)
      case TimeAccepted => Accept(map[Key(DiningTime) := time.value])
      case TimeRejected(message) => Reprompt(message)
  }

  /** The location branch: the question again on a trigger word, the text as typed when it is a known city. */
  function LocationStep(input: string): Step {
    match CheckLocation(input)
    case Store(v) => Accept(map[Key(Location) := v])
    case Ask(m) => Reprompt(m)
  }

  /** The cuisine branch: the capitalised name when it is a supported cuisine. */
  function CuisineStep(input: string): Step {
    match CheckCuisine(input)
    case Store(v) => Accept(map[Key(Cuisine) := v])
    case Ask(m) => Reprompt(m)
  }

  /** The party-size branch: the count written back as decimal text. */
  function PeopleStep(input: string): Step {
    match CheckNumPeople(input)
    case People(n) => Accept(map[Key(NumberOfPeople) := NatText(n)])
    case PeopleRefused(m) => Reprompt(m)
  }

  /** The email branch: the address in lower case when it is acceptable. */
  function EmailStep(input: string): Step {
    match CheckEmail(input)
    case None => Accept(map[Key(Email) := Lower(input)])
    case Some(m) => Reprompt(m)
  }

  /** The check of the answer `input` for field `f`, and what it writes. */
  function StepFor(f: Field, input: string, slots: Slots, attrs: Attrs, clock: Clock): Step
    requires IsValid(clock.today)
  {
    match f
    case Location => LocationStep(input)
    case Cuisine => CuisineStep(input)
    case DiningDate => DateStep(input, slots, clock.today)
    case DiningTime => TimeStep(input, slots, attrs, clock)
    case NumberOfPeople => PeopleStep(input)
    case Email => EmailStep(input)
  }

  /** `datetime.strptime(t, '%H:%M').strftime('%I:%M %p')`, or `t` itself when it does not parse. */
  function PrettyTime(t: string): (r: string)
    ensures r == t || (|r| >= 3 && (r[|r| - 3..] == " AM" || r[|r| - 3..] == " PM"))
  {
    match Scan(t, ClockFormat)
    case None => t
    case Some(fields) =>
      var h := fields.hour.GetOr(0);
      var m := fields.minute.GetOr(0);
      if h < 0 || m < 0 then t
      else
        var clock := Padded(if h % 12 == 0 then 12 else h % 12, 2) + ":" + Padded(m, 2);
        var period := if h < 12 then " AM" else " PM";
        EndsWith(clock, period);
        clock + period
  }

  /** The last `|b|` characters of `a + b` are `b`. */
  lemma EndsWith(a: string, b: string)
    ensures (a + b)[|a + b| - |b|..] == b
  {
  }

  /** The confirmation sent back when the reservation is complete. */
  function CompletionMessage(cuisine: string, people: string, displayDate: string, prettyTime: string,
                             email: string): string {
    "Perfect! I'll send " + cuisine + " restaurant suggestions for " + people + " people for "
      + displayDate + " at " + prettyTime + " to " + email + ". Enjoy your meal!"
  }

  /** The reservation built from six confirmed attributes. */
  function ReservationOf(attrs: Attrs): (r: Reservation)
    requires forall f :: Confirmed(attrs, f)
    ensures r.location != "" && r.cuisine != "" && r.date != "" && r.time != "" && r.people != "" && r.email != ""
  {
    assert Confirmed(attrs, Location) && Confirmed(attrs, Cuisine) && Confirmed(attrs, DiningDate);
    assert Confirmed(attrs, DiningTime) && Confirmed(attrs, NumberOfPeople) && Confirmed(attrs, Email);
    Reservation(attrs[Key(Location)], attrs[Key(Cuisine)], attrs[Key(DiningDate)],
                attrs[Key(DiningTime)], attrs[Key(NumberOfPeople)], attrs[Key(Email)])
  }

  /**
   * The end of every turn that did not stop at a failed check: with all six fields confirmed,
   * hand the reservation to the queue (when one is configured) and close; otherwise ask for the
   * first missing field with its fixed question.
   */
  function Conclude(event: Event, attrs: Attrs, env: Env): (t: Turn)
    ensures t.response.attrs == attrs && t.response.intent == event.intent
    ensures t.response.Close? <==> forall f :: Confirmed(attrs, f)
    ensures t.response.ElicitSlot? <==> FirstMissing(attrs).Some?
    ensures t.response.ElicitSlot? ==> (t.response.slotToElicit == SlotName(FirstMissing(attrs).value)
      && t.response.message == Prompt(FirstMissing(attrs).value) && t.sent.None?)
    ensures t.response.Close? ==> (t.response.state == Failed <==> env.queueConfigured && env.sendFails)
    ensures t.sent.Some? <==> t.response.Close? && env.queueConfigured
    ensures t.sent.Some? ==> (forall f :: Confirmed(attrs, f)) && t.sent.value == ReservationOf(attrs)
    ensures t.response.Close? && t.response.state == Failed ==> t.response.message == QueueFailureMessage
    ensures t.response.Close? && t.response.state == Fulfilled ==>
      Confirmed(attrs, Cuisine) && Confirmed(attrs, DiningDate) && Confirmed(attrs, DiningTime)
      && Confirmed(attrs, NumberOfPeople) && Confirmed(attrs, Email)
      && t.response.message == CompletionMessage(attrs[Key(Cuisine)], attrs[Key(NumberOfPeople)],
           if DisplayDateKey in attrs then attrs[DisplayDateKey] else attrs[Key(DiningDate)],
           PrettyTime(attrs[Key(DiningTime)]), attrs[Key(Email)])
  {
    match FirstMissing(attrs)
    case None =>
      var r := ReservationOf(attrs);
      if env.queueConfigured && env.sendFails then
        Turn(Close(attrs, event.intent, Failed, QueueFailureMessage), Some(r))
      else
        var display := if DisplayDateKey in attrs then attrs[DisplayDateKey] else r.date;
        Turn(Close(attrs, event.intent, Fulfilled,
                   CompletionMessage(r.cuisine, r.people, display, PrettyTime(r.time), r.email)),
             if env.queueConfigured then Some(r) else None)
    case Some(f) => Turn(ElicitSlot(attrs, event.intent, event.slots, SlotName(f), Prompt(f)), None)
  }

  /** `handle_dining(event)`: check the answer for the first missing field (only on a dialog code hook), then conclude. */
  function DiningTurn(event: Event, env: Env): (t: Turn)
    requires IsValid(env.clock.today)
    ensures t.response.Close? || t.response.ElicitSlot?
    ensures t.response.intent == event.intent
  {
    var input := Strip(event.transcript);
    match FirstMissing(event.attrs)
    case Some(f) =>
      if event.source == "DialogCodeHook" then
        match StepFor(f, input, event.slots, event.attrs, env.clock)
        case Accept(writes) => Conclude(event, event.attrs + writes, env)
        case Reprompt(message) => Turn(ElicitSlot(event.attrs, event.intent, event.slots, SlotName(f), message), None)
      else Conclude(event, event.attrs, env)
    case None => Conclude(event, event.attrs, env)
  }

  /** The date branch of `handle_dining`: validate the slot's value, then retry with the typed text. */
  method DateAnswer(userInput: string, slots: Slots, today: Date) returns (step: Step)
    requires IsValid(today)
    ensures step == DateStep(userInput, slots, today)
  {
    hide CheckDate;
    var slotDate := GetSlotValue(slots, SlotName(DiningDate));
    var dateToValidate := if slotDate.Some? then slotDate.value else userInput;
    var verdict := ValidateDate(dateToValidate, today);
    if verdict.Accepted? {
      return Accept(map[Key(DiningDate) := FormatIso(verdict.date), DisplayDateKey := userInput]);
    }
    if slotDate.Some? && slotDate.value != userInput {
      var retry := ValidateDate(userInput, today);
      if retry.Accepted? {
        return Accept(map[Key(DiningDate) := FormatIso(retry.date), DisplayDateKey := userInput]);
      }
    }
    return Reprompt(verdict.message);
  }

  /** The time branch of `handle_dining`: the slot's value or the normalised text, then `validate_time`. */
  method TimeAnswer(userInput: string, slots: Slots, attrs: Attrs, clock: Clock) returns (step: Step)
    ensures step == TimeStep(userInput, slots, attrs, clock)
  {
    // the branch only passes the normalised text on: the parser's own cases are not needed here
    hide ParseTimeInput;
    var slotTime := GetSlotValue(slots, SlotName(DiningTime));
    var timeToValidate := if slotTime.Some? then slotTime else ParseTimeInput(userInput);
    if timeToValidate.None? || timeToValidate.value == "" {
      return Reprompt(UnparseableTimeMessage(userInput));
    }
    var verdict := CheckTime(timeToValidate.value, Get(attrs, Key(DiningDate)), clock);
    if verdict.TimeAccepted? {
      step := Accept(map[Key(DiningTime) := timeToValidate.value]);
    } else {
      step := Reprompt(verdict.message);
    }
  }

  /** The location branch of `handle_dining`. */
  method LocationAnswer(userInput: string) returns (step: Step)
    ensures step == LocationStep(userInput)
  {
    if HasTriggerWord(userInput) {
      step := Reprompt(LocationPrompt);
    } else if Lower(userInput) in ValidLocations {
      step := Accept(map[Key(Location) := userInput]);
    } else {
      step := Reprompt(UnknownLocationMessage(userInput));
    }
  }

  /** The cuisine branch of `handle_dining`. */
  method CuisineAnswer(userInput: string) returns (step: Step)
    ensures step == CuisineStep(userInput)
  {
    if Lower(userInput) in ValidCuisines {
      step := Accept(map[Key(Cuisine) := Capitalize(userInput)]);
    } else {
      step := Reprompt(UnknownCuisineMessage(userInput));
    }
  }

  /**
   * The branch of `handle_dining` for the field being collected: check the answer and give
   * the attributes it confirms, or the message to ask again with.
   */
  method Answer(f: Field, userInput: string, slots: Slots, attrs: Attrs, clock: Clock) returns (step: Step)
    requires IsValid(clock.today)
    ensures step == StepFor(f, userInput, slots, attrs, clock)
  {
    hide LocationStep, CuisineStep, DateStep, TimeStep;
    match f {
      case Location =>
        step := LocationAnswer(userInput);
      case Cuisine =>
        step := CuisineAnswer(userInput);
      case DiningDate =>
        step := DateAnswer(userInput, slots, clock.today);
      case DiningTime =>
        step := TimeAnswer(userInput, slots, attrs, clock);
      case NumberOfPeople =>
        var people := CheckNumPeople(userInput);
        if people.People? {
          step := Accept(map[Key(NumberOfPeople) := NatText(people.count)]);
        } else {
          step := Reprompt(people.message);
        }
      case Email =>
        var emailError := CheckEmail(userInput);
        if emailError.None? {
          step := Accept(map[Key(Email) := Lower(userInput)]);
        } else {
          step := Reprompt(emailError.value);
        }
    }
  }

  /** The end of `handle_dining`: send and close when all six are confirmed, else ask for the first missing one. */
  method Finish(event: Event, attrs: Attrs, env: Env) returns (turn: Turn)
    ensures turn == Conclude(event, attrs, env)
  {
    var intentName := event.intent;
    var slots := event.slots;
    var allConfirmed := Truthy(attrs, Key(Location)) && Truthy(attrs, Key(Cuisine))
      && Truthy(attrs, Key(DiningDate)) && Truthy(attrs, Key(DiningTime))
      && Truthy(attrs, Key(NumberOfPeople)) && Truthy(attrs, Key(Email));
    if allConfirmed {
      var record := Reservation(attrs[Key(Location)], attrs[Key(Cuisine)], attrs[Key(DiningDate)],
                                attrs[Key(DiningTime)], attrs[Key(NumberOfPeople)], attrs[Key(Email)]);
      var sent: Option<Reservation> := None;
      if env.queueConfigured {
        sent := Some(record);
        if env.sendFails {
          return Turn(Close(attrs, intentName, Failed, QueueFailureMessage), sent);
        }
      }
      var prettyTime := PrettyTime(attrs[Key(DiningTime)]);
      var displayDate := if DisplayDateKey in attrs then attrs[DisplayDateKey] else attrs[Key(DiningDate)];
      return Turn(Close(attrs, intentName, Fulfilled,
                        CompletionMessage(attrs[Key(Cuisine)], attrs[Key(NumberOfPeople)], displayDate,
                                          prettyTime, attrs[Key(Email)])), sent);
    }

    if !Truthy(attrs, Key(Location)) {
      return Turn(ElicitSlot(attrs, intentName, slots, SlotName(Location), Prompt(Location)), None);
    } else if !Truthy(attrs, Key(Cuisine)) {
      return Turn(ElicitSlot(attrs, intentName, slots, SlotName(Cuisine), Prompt(Cuisine)), None);
    } else if !Truthy(attrs, Key(DiningDate)) {
      return Turn(ElicitSlot(attrs, intentName, slots, SlotName(DiningDate), Prompt(DiningDate)), None);
    } else if !Truthy(attrs, Key(DiningTime)) {
      return Turn(ElicitSlot(attrs, intentName, slots, SlotName(DiningTime), Prompt(DiningTime)), None);
    } else if !Truthy(attrs, Key(NumberOfPeople)) {
      return Turn(ElicitSlot(attrs, intentName, slots, SlotName(NumberOfPeople), Prompt(NumberOfPeople)), None);
    } else if !Truthy(attrs, Key(Email)) {
      return Turn(ElicitSlot(attrs, intentName, slots, SlotName(Email), Prompt(Email)), None);
    }
    // every field is confirmed here, so the closing branch above has already returned
    assert false;
    return Turn(Delegate(attrs, intentName, slots), None);
  }

  /**
   * `handle_dining(event)` as the source runs it: the if-chain choosing the field being
   * collected, its branch (on a dialog code hook only), then the ending.
   */
  method HandleDining(event: Event, env: Env) returns (turn: Turn)
    requires ValidClock(env.clock)
    ensures turn == DiningTurn(event, env)
  {
    hide StepFor, Conclude;
    var attrs := event.attrs;
    var userInput := Strip(event.transcript);

    var collecting: Option<Field>;
    if !Truthy(attrs, Key(Location)) {
      collecting := Some(Location);
    } else if !Truthy(attrs, Key(Cuisine)) {
      collecting := Some(Cuisine);
    } else if !Truthy(attrs, Key(DiningDate)) {
      collecting := Some(DiningDate);
    } else if !Truthy(attrs, Key(DiningTime)) {
      collecting := Some(DiningTime);
    } else if !Truthy(attrs, Key(NumberOfPeople)) {
      collecting := Some(NumberOfPeople);
    } else if !Truthy(attrs, Key(Email)) {
      collecting := Some(Email);
    } else {
      collecting := None;
    }

    if collecting.Some? && event.source == "DialogCodeHook" {
      var step := Answer(collecting.value, userInput, event.slots, attrs, env.clock);
      match step {
        case Reprompt(message) =>
          return Turn(ElicitSlot(attrs, event.intent, event.slots, SlotName(collecting.value), message), None);
        case Accept(writes) =>
          attrs := attrs + writes;
      }
    }
    turn := Finish(event, attrs, env);
  }

  const GreetingMessage := "Hi there, how can I help?"
  const ThankYouMessage := "You're welcome! Have a great day!"
  const FallbackMessage := "Sorry, I didn't understand that. Type 'Hello' to get started!"
  const DefaultMessage := "How can I help you?"

  /**
   * `lambda_handler(event, context)`: route by intent name. The dining intent runs the
   * slot-filling turn; every other intent is closed at once with no session attributes.
   */
  method LambdaHandler(event: Event, env: Env) returns (turn: Turn)
    requires ValidClock(env.clock)
    ensures event.intent == "DiningSuggestionsIntent" ==> turn == DiningTurn(event, env)
    ensures event.intent != "DiningSuggestionsIntent" ==>
      turn.sent.None? && turn.response.Close? && turn.response.attrs == map[]
      && turn.response.intent == event.intent && turn.response.state == Fulfilled
    ensures event.intent == "GreetingIntent" ==> turn.response.message == GreetingMessage
    ensures event.intent == "ThankYouIntent" ==> turn.response.message == ThankYouMessage
    ensures event.intent == "FallbackIntent" ==> turn.response.message == FallbackMessage
    ensures event.intent !in {"GreetingIntent", "ThankYouIntent", "DiningSuggestionsIntent", "FallbackIntent"} ==>
      turn.response.message == DefaultMessage
  {
    var intent := event.intent;
    if intent == "GreetingIntent" {
      return Turn(Close(map[], "GreetingIntent", Fulfilled, GreetingMessage), None);
    } else if intent == "ThankYouIntent" {
      return Turn(Close(map[], "ThankYouIntent", Fulfilled, ThankYouMessage), None);
    } else if intent == "DiningSuggestionsIntent" {
      turn := HandleDining(event, env);
      return;
    } else if intent == "FallbackIntent" {
      return Turn(Close(map[], "FallbackIntent", Fulfilled, FallbackMessage), None);
    }
    return Turn(Close(map[], intent, Fulfilled, DefaultMessage), None);
  }
}

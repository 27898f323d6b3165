/**
 * What one turn of the dining dialog does to the session, proved about `DiningTurn`:
 * an accepted answer confirms exactly the field being collected, nothing confirmed
 * earlier is lost or changed, and the bot always asks for the first field still missing.
 */
module DialogFacts {
  import opened Wrappers
  import opened Text
  import opened Calendar
  import Strptime
  import StrptimeFacts
  import opened DateValidation
  import opened TimeValidation
  import opened FieldValidation
  import opened Dialog

  /** The six field keys and the display-date key are pairwise different. */
  lemma KeysDistinct(f: Field, g: Field)
    ensures Key(f) == Key(g) ==> f == g
    ensures Key(f) != DisplayDateKey
  {
    if f != g && |Key(f)| == |Key(g)| {
      // only the date and the time keys have the same length; they differ after "confirmed"
      assert Key(f)[9] != Key(g)[9];
    }
  }

  /** A name found in a list of non-empty names is itself non-empty. */
  lemma ListedNameNonEmpty(input: string, names: seq<string>)
    requires forall i :: 0 <= i < |names| ==> names[i] != ""
    requires Lower(input) in names
    ensures input != ""
  {
  }

  /**
   * An accepted answer writes a non-empty value for its own field, and writes no other key
   * except, for the date, the text the user typed.
   */
  lemma AcceptConfirms(f: Field, input: string, slots: Slots, attrs: Attrs, clock: Clock)
    requires IsValid(clock.today)
    requires StepFor(f, input, slots, attrs, clock).Accept?
    ensures var w := StepFor(f, input, slots, attrs, clock).writes;
      Key(f) in w && w[Key(f)] != ""
      && forall k | k in w :: k == Key(f) || (f == DiningDate && k == DisplayDateKey)
  {
    hide LocationStep, CuisineStep, DateStep, TimeStep, PeopleStep, EmailStep;
    match f
    case Location => LocationWrites(input);
    case Cuisine => CuisineWrites(input);
    case DiningDate => DateWrites(input, slots, clock.today);
    case DiningTime => TimeWrites(input, slots, attrs, clock);
    case NumberOfPeople => PeopleWrites(input);
    case Email => EmailWrites(input);
  }

  lemma LocationWrites(input: string)
    requires LocationStep(input).Accept?
    ensures LocationStep(input).writes == map[Key(Location) := input] && input != ""
  {
    hide HasTriggerWord;
    ListedNameNonEmpty(input, ValidLocations);
  }

  lemma CuisineWrites(input: string)
    requires CuisineStep(input).Accept?
    ensures CuisineStep(input).writes.Keys == {Key(Cuisine)} && CuisineStep(input).writes[Key(Cuisine)] != ""
  {
    ListedNameNonEmpty(input, ValidCuisines);
    assert |Capitalize(input)| == |input|;
  }

  lemma DateWrites(input: string, slots: Slots, today: Date)
    requires IsValid(today)
    requires DateStep(input, slots, today).Accept?
    ensures var w := DateStep(input, slots, today).writes;
      w.Keys == {Key(DiningDate), DisplayDateKey} && w[Key(DiningDate)] != ""
  {
    hide CheckDate;
  }

  lemma TimeWrites(input: string, slots: Slots, attrs: Attrs, clock: Clock)
    requires TimeStep(input, slots, attrs, clock).Accept?
    ensures var w := TimeStep(input, slots, attrs, clock).writes;
      w.Keys == {Key(DiningTime)} && w[Key(DiningTime)] != ""
  {
    hide ParseTimeInput, CheckTime;
  }

  lemma PeopleWrites(input: string)
    requires PeopleStep(input).Accept?
    ensures PeopleStep(input).writes.Keys == {Key(NumberOfPeople)} && PeopleStep(input).writes[Key(NumberOfPeople)] != ""
  {
    hide CheckNumPeople;
  }

  lemma EmailWrites(input: string)
    requires EmailStep(input).Accept?
    ensures EmailStep(input).writes == map[Key(Email) := Lower(input)] && Lower(input) != ""
  {
    hide CheckEmail;
    EmailSyntaxHasAt(input);
  }

  /**
   * The date branch stores the ISO text of a date that is not in the past, read from the
   * slot's value or, failing that, from the typed text, and shows the typed text; when both
   * fail the bot repeats the error about the first candidate it checked.
   */
  lemma DateStepMeaning(input: string, slots: Slots, today: Date)
    requires IsValid(today)
    ensures var step := DateStep(input, slots, today);
      step.Accept? ==> Key(DiningDate) in step.writes && DisplayDateKey in step.writes && step.writes[DisplayDateKey] == input
    ensures var slotDate := GetSlotValue(slots, SlotName(DiningDate));
      var first := if slotDate.Some? then slotDate.value else input;
      var step := DateStep(input, slots, today);
      step.Accept? ==>
        exists d :: IsValid(d) && !Before(d, today) && step.writes[Key(DiningDate)] == FormatIso(d)
          && (CheckDate(first, today) == Accepted(d) || CheckDate(input, today) == Accepted(d))
    ensures var slotDate := GetSlotValue(slots, SlotName(DiningDate));
      var first := if slotDate.Some? then slotDate.value else input;
      var step := DateStep(input, slots, today);
      step.Reprompt? ==> CheckDate(first, today).Rejected? && step.message == CheckDate(first, today).message
    ensures var slotDate := GetSlotValue(slots, SlotName(DiningDate));
      var first := if slotDate.Some? then slotDate.value else input;
      CheckDate(first, today).Rejected? && CheckDate(input, today).Rejected? ==> DateStep(input, slots, today).Reprompt?
    ensures var slotDate := GetSlotValue(slots, SlotName(DiningDate));
      var first := if slotDate.Some? then slotDate.value else input;
      var step := DateStep(input, slots, today);
      CheckDate(first, today).Accepted? ==>
        step.Accept? && step.writes[Key(DiningDate)] == FormatIso(CheckDate(first, today).date)
    ensures var slotDate := GetSlotValue(slots, SlotName(DiningDate));
      var first := if slotDate.Some? then slotDate.value else input;
      var step := DateStep(input, slots, today);
      CheckDate(first, today).Rejected? && step.Accept? ==>
        CheckDate(input, today).Accepted? && step.writes[Key(DiningDate)] == FormatIso(CheckDate(input, today).date)
  {
    hide CheckDate;
    var slotDate := GetSlotValue(slots, SlotName(DiningDate));
    var first := if slotDate.Some? then slotDate.value else input;
    var step := DateStep(input, slots, today);
    if step.Accept? {
      var d := if CheckDate(first, today).Accepted? then CheckDate(first, today).date else CheckDate(input, today).date;
      assert step.writes[Key(DiningDate)] == FormatIso(d);
    }
  }

  /**
   * The time branch stores the slot's value as it is or, with no slot value, the normalised
   * typed text, and only a value `validate_time` reads as an open-hours time; text that is
   * neither gets the "not a valid time" message naming the typed text.
   */
  lemma TimeStepMeaning(input: string, slots: Slots, attrs: Attrs, clock: Clock)
    ensures var step := TimeStep(input, slots, attrs, clock);
      step.Accept? ==> Key(DiningTime) in step.writes
    ensures var slotTime := GetSlotValue(slots, SlotName(DiningTime));
      var step := TimeStep(input, slots, attrs, clock);
      step.Accept? ==>
        var t := step.writes[Key(DiningTime)];
        (slotTime.Some? ==> t == slotTime.value)
        && (slotTime.None? ==> ParseTimeInput(input) == Some(t))
        && ClockFields(t).Some? && !IsClosedHour(ClockFields(t).value.0)
    ensures var slotTime := GetSlotValue(slots, SlotName(DiningTime));
      slotTime.None? && ParseTimeInput(input).None? ==>
        TimeStep(input, slots, attrs, clock) == Reprompt(UnparseableTimeMessage(input))
  {
    hide ParseTimeInput, ClockFields;
  }

  /**
   * The completion message shows a confirmed `HH:MM` time on the 12-hour clock: hour 0 is
   * "12 AM", 12 is "12 PM", and 13 to 23 lose 12.
   */
  lemma PrettyTimeTwelveHour(h: nat, m: nat)
    requires h <= 23 && m <= 59
    ensures PrettyTime(ClockText(h, m))
         == ClockText(if h % 12 == 0 then 12 else h % 12, m) + (if h < 12 then " AM" else " PM")
  {
    hide Strptime.Scan, Padded;
    StrptimeFacts.ClockRoundTrip(h, m);
  }

  /** The attributes a turn sends back when the answer for `f` was accepted: the old ones with the writes laid over them. */
  lemma AcceptedTurn(event: Event, env: Env, f: Field)
    requires IsValid(env.clock.today)
    requires FirstMissing(event.attrs) == Some(f) && event.source == "DialogCodeHook"
    requires StepFor(f, Strip(event.transcript), event.slots, event.attrs, env.clock).Accept?
    ensures DiningTurn(event, env).response.attrs
      == event.attrs + StepFor(f, Strip(event.transcript), event.slots, event.attrs, env.clock).writes
  {
    hide StepFor;
  }

  /** A refused answer: the same field is asked for again, with the session as it was. */
  lemma RefusedTurn(event: Event, env: Env, f: Field)
    requires IsValid(env.clock.today)
    requires FirstMissing(event.attrs) == Some(f) && event.source == "DialogCodeHook"
    requires StepFor(f, Strip(event.transcript), event.slots, event.attrs, env.clock).Reprompt?
    ensures var t := DiningTurn(event, env);
      t.response.attrs == event.attrs && t.response.ElicitSlot? && t.response.slotToElicit == SlotName(f)
      && t.response.message == StepFor(f, Strip(event.transcript), event.slots, event.attrs, env.clock).message
      && t.sent.None?
  {
    hide StepFor;
  }

  /** The attributes a turn sends back in every other case: the old ones unchanged. */
  lemma UnchangedTurn(event: Event, env: Env)
    requires IsValid(env.clock.today)
    requires FirstMissing(event.attrs).None? || event.source != "DialogCodeHook"
      || StepFor(FirstMissing(event.attrs).value, Strip(event.transcript), event.slots, event.attrs, env.clock).Reprompt?
    ensures DiningTurn(event, env).response.attrs == event.attrs
  {
    hide StepFor;
  }

  /**
   * One turn changes the session only by confirming the field being collected (and, for the
   * date, recording the typed text): every other attribute keeps its key and its value, and
   * nothing changes at all outside a dialog code hook.
   */
  lemma TurnWritesOnlyCollectedField(event: Event, env: Env, f: Field)
    requires IsValid(env.clock.today)
    requires FirstMissing(event.attrs) == Some(f)
    ensures var a := DiningTurn(event, env).response.attrs;
      event.attrs.Keys <= a.Keys
      && (event.source != "DialogCodeHook" ==> a == event.attrs)
      && (forall k | k in a && k != Key(f) && (k == DisplayDateKey ==> f != DiningDate) ::
            k in event.attrs && a[k] == event.attrs[k])
  {
    hide StepFor;
    var input := Strip(event.transcript);
    if event.source == "DialogCodeHook" && StepFor(f, input, event.slots, event.attrs, env.clock).Accept? {
      AcceptConfirms(f, input, event.slots, event.attrs, env.clock);
      AcceptedTurn(event, env, f);
    } else {
      UnchangedTurn(event, env);
    }
  }

  /**
   * Progress: on a dialog code hook the turn either asks for the same field again and keeps
   * the session as it was, or leaves that field and every field before it confirmed.
   */
  lemma TurnProgress(event: Event, env: Env, f: Field)
    requires IsValid(env.clock.today)
    requires FirstMissing(event.attrs) == Some(f) && event.source == "DialogCodeHook"
    ensures var t := DiningTurn(event, env);
      (t.response.attrs == event.attrs && t.response.ElicitSlot? && t.response.slotToElicit == SlotName(f))
      || forall i :: 0 <= i <= Index(f) ==> Confirmed(t.response.attrs, Fields[i])
  {
    hide DiningTurn, StepFor;
    var input := Strip(event.transcript);
    var step := StepFor(f, input, event.slots, event.attrs, env.clock);
    if step.Reprompt? {
      RefusedTurn(event, env, f);
    } else {
      AcceptConfirms(f, input, event.slots, event.attrs, env.clock);
      AcceptedTurn(event, env, f);
      var a := event.attrs + step.writes;
      forall i | 0 <= i <= Index(f)
        ensures Confirmed(a, Fields[i])
      {
        if i < Index(f) {
          KeysDistinct(Fields[i], f);
          KeysDistinct(f, Fields[i]);
          assert Key(Fields[i]) != Key(f) && Key(Fields[i]) != DisplayDateKey;
          assert Key(Fields[i]) !in step.writes;
        }
      }
    }
  }

  /**
   * Whatever the turn, the bot never delegates; it closes exactly when all six fields of the
   * session it sends back are confirmed, and otherwise asks for the first of them still missing.
   */
  lemma AsksForFirstMissing(event: Event, env: Env)
    requires IsValid(env.clock.today)
    ensures var t := DiningTurn(event, env);
      !t.response.Delegate?
      && (t.response.Close? <==> forall f :: Confirmed(t.response.attrs, f))
      && (t.response.ElicitSlot? ==>
            FirstMissing(t.response.attrs).Some?
            && t.response.slotToElicit == SlotName(FirstMissing(t.response.attrs).value))
  {
    hide StepFor, Conclude;
    var input := Strip(event.transcript);
    match FirstMissing(event.attrs)
    case Some(f) =>
      if event.source == "DialogCodeHook" && StepFor(f, input, event.slots, event.attrs, env.clock).Reprompt? {
        assert DiningTurn(event, env).response.attrs == event.attrs;
      }
    case None =>
  }

  /**
   * The queue: a reservation is handed over exactly when the turn closes with a queue
   * configured, it carries the six confirmed attributes, and the turn fails exactly when
   * that hand-over fails.
   */
  lemma QueueOutcome(event: Event, env: Env)
    requires IsValid(env.clock.today)
    ensures var t := DiningTurn(event, env);
      (t.sent.Some? <==> t.response.Close? && env.queueConfigured)
      && (t.response.Close? ==> (t.response.state == Failed <==> env.queueConfigured && env.sendFails))
      && (t.sent.Some? ==> forall f :: Confirmed(t.response.attrs, f))
      && (t.sent.Some? ==> t.sent.value == Reservation(
            t.response.attrs[Key(Location)], t.response.attrs[Key(Cuisine)], t.response.attrs[Key(DiningDate)],
            t.response.attrs[Key(DiningTime)], t.response.attrs[Key(NumberOfPeople)], t.response.attrs[Key(Email)]))
  {
    hide StepFor, Conclude;
    var input := Strip(event.transcript);
    match FirstMissing(event.attrs)
    case Some(f) =>
      if event.source == "DialogCodeHook" && StepFor(f, input, event.slots, event.attrs, env.clock).Reprompt? {
        assert DiningTurn(event, env).sent.None?;
      }
    case None =>
  }
}

/**
 * The in-memory store used when the document database is unreachable: an
 * event list loaded lazily from a file (or three sample events), a
 * registration list, and the counter that numbers new registrations.
 */
module MockDatabase {
  import opened Wrappers
  import opened Strings
  import opened Domain
  import opened Admission
  import opened Aggregation

  /** The three sample events used when the event file is missing or has no event array. */
  function FallbackEvents(extractedAt: string): (r: seq<Event>)
    ensures |r| == 3 && UniqueEventIds(r)
    ensures forall i :: 0 <= i < 3 ==> r[i].id == (i + 1) as real && r[i].extractedAt == extractedAt
  {
    [ Event(1.0, "1", "Sarada Dorce", "June 18th", "5pm",
            "Lehman HS-3000 Tremont Ave.\nBronx, NY  10465", "",
            "Graduation Ceremony", "School 1 Graduation Ceremony", "2025", "", extractedAt),
      Event(2.0, "2", "Olga Steward Nelson", "June 20th", "6pm",
            "I.S. 61\n98-50th , Corona, NY11368", "",
            "Graduation Ceremony", "School 2 Graduation Ceremony", "2025", "", extractedAt),
      Event(3.0, "3", "Sabrina Fleming", "June 18th", "6pm",
            "142-10 Linden Blvd.", "",
            "Graduation Ceremony", "School 3 Graduation Ceremony", "2025", "", extractedAt) ]
  }

  /**
   * What a load yields: the file's event array when it has one (`None` stands
   * for a missing file or a document without an `events` array), else the samples.
   */
  function FileEvents(file: Option<seq<Event>>, extractedAt: string): (r: seq<Event>)
    ensures file.Some? ==> r == file.value
    ensures file.None? ==> |r| == 3 && UniqueEventIds(r) && forall i :: 0 <= i < |r| ==> r[i].extractedAt == extractedAt
  {
    if file.Some? then file.value else FallbackEvents(extractedAt)
  }

  /** The event list after the lazy load: loaded only when the list is empty. */
  function LoadedEvents(events: seq<Event>, file: Option<seq<Event>>, extractedAt: string): (r: seq<Event>)
    ensures events != [] ==> r == events
    ensures events == [] ==> r == FileEvents(file, extractedAt)
  {
    if events == [] then FileEvents(file, extractedAt) else events
  }

  /** The message each refusal is thrown with. */
  function Message(e: AdmissionError): string {
    match e
    case EventNotFound => "Event not found"
    case AlreadyRegistered => "Already registered for this event"
    case EventFull => "Event is at maximum capacity"
  }

  /** Each refusal is thrown with its own message, so the message tells the reason. */
  lemma MessageIdentifiesReason(a: AdmissionError, b: AdmissionError)
    ensures Message(a) == Message(b) <==> a == b
  {
    if a != b {
      assert |Message(a)| != |Message(b)|;
    }
  }

  /** Ids numbered 1, 2, 3, ... in decimal, by position. */
  ghost predicate NumberedInOrder(regs: seq<Registration>) {
    forall i :: 0 <= i < |regs| ==> regs[i].id == DecimalString(i + 1)
  }

  /** Numbering by position gives every registration a different id. */
  lemma NumberedIdsAreDistinct(regs: seq<Registration>)
    requires NumberedInOrder(regs)
    ensures forall i, j :: 0 <= i < j < |regs| ==> regs[i].id != regs[j].id
  {
    forall i, j | 0 <= i < j < |regs| ensures regs[i].id != regs[j].id {
      if regs[i].id == regs[j].id {
        DecimalStringInjective(i + 1, j + 1);
      }
    }
  }

  lemma AppendKeepsNumbering(regs: seq<Registration>, r: Registration)
    requires NumberedInOrder(regs) && r.id == DecimalString(|regs| + 1)
    ensures NumberedInOrder(regs + [r])
  {
    forall i | 0 <= i < |regs| + 1 ensures (regs + [r])[i].id == DecimalString(i + 1) {
      if i < |regs| { assert (regs + [r])[i] == regs[i]; }
    }
  }

  /**
   * The counter is one past the number of registrations, ids follow the
   * counter, and the admission invariant holds with no exempt event.
   */
  ghost predicate StoreInvariant(regs: seq<Registration>, counter: nat) {
    && counter == |regs| + 1
    && NumberedInOrder(regs)
    && WellFormed(regs, {})
  }

  /** The outcome of one registration attempt with the store's list and counter after it. */
  datatype Step = Step(result: Result<Registration, AdmissionError>, regs: seq<Registration>, counter: nat)

  /**
   * One registration attempt on the store's list and counter: the outcome,
   * the new list and the new counter. A refusal leaves both alone; an
   * admission appends the record numbered by the counter and advances it.
   */
  function CreateStep(events: seq<Event>, regs: seq<Registration>, counter: nat,
                      eventId: EventId, email: string, name: string, now: nat): (r: Step)
    ensures r.result.Success? <==> Check(events, regs, {}, eventId, email) == None
    ensures |r.regs| == |regs| + (if r.result.Success? then 1 else 0) && r.regs[..|regs|] == regs
    ensures r.counter == counter + (|r.regs| - |regs|)
  {
    match Check(events, regs, {}, eventId, email)
    case Some(reason) => Step(Failure(reason), regs, counter)
    case None =>
      var r := NewRecord(DecimalString(counter), eventId, email, name, now);
      Step(Success(r), regs + [r], counter + 1)
  }

  /**
   * A registration attempt keeps the store invariant and known event
   * references, and changes the list as the admission model does: it succeeds
   * exactly when the admission decision admits, fails with that decision's
   * reason otherwise, and a success is the record numbered by the counter.
   */
  lemma CreateStepKeepsStoreInvariant(events: seq<Event>, regs: seq<Registration>, counter: nat,
                                      eventId: EventId, email: string, name: string, now: nat)
    requires StoreInvariant(regs, counter)
    ensures var out := CreateStep(events, regs, counter, eventId, email, name, now);
      var verdict := Check(events, regs, {}, eventId, email);
      && StoreInvariant(out.regs, out.counter)
      && (ReferencesKnownEvents(events, regs) ==> ReferencesKnownEvents(events, out.regs))
      && out.regs == AdmitOne(events, regs, {}, eventId, email, name, now).0
      && (out.result.Success? <==> verdict == None)
      && (out.result.Failure? ==> verdict == Some(out.result.error))
      && (out.result.Success? ==> out.result.value.id == DecimalString(|regs| + 1) && out.regs == regs + [out.result.value])
  {
    if Check(events, regs, {}, eventId, email) == None {
      var r := NewRecord(DecimalString(counter), eventId, email, name, now);
      AdmissionPreservesInvariant(events, regs, {}, r.id, eventId, email, name, now);
      AppendKeepsNumbering(regs, r);
    }
  }

  class MockStore {
    var eventsData: seq<Event>
    var registrationsData: seq<Registration>
    var nextRegistrationId: nat

    ghost predicate Valid()
      reads this
    {
      StoreInvariant(registrationsData, nextRegistrationId)
    }

    /** Every registration names a loaded event (a reload may break this). */
    ghost predicate Consistent()
      reads this
    {
      ReferencesKnownEvents(eventsData, registrationsData)
    }

    constructor ()
      ensures eventsData == [] && registrationsData == [] && nextRegistrationId == 1
      ensures Valid() && Consistent()
    {
      eventsData := [];
      registrationsData := [];
      nextRegistrationId := 1;
    }

    /** Replaces the event list with the file's events or the samples. */
    method LoadEventsFromFile(file: Option<seq<Event>>, extractedAt: string) returns (r: seq<Event>)
      modifies this
      ensures eventsData == FileEvents(file, extractedAt) && r == eventsData
      ensures registrationsData == old(registrationsData) && nextRegistrationId == old(nextRegistrationId)
    {
      eventsData := FileEvents(file, extractedAt);
      r := eventsData;
    }

    /** Loads the events only when none are held. */
    method LoadIfEmpty(file: Option<seq<Event>>, extractedAt: string)
      modifies this
      ensures eventsData == LoadedEvents(old(eventsData), file, extractedAt)
      ensures registrationsData == old(registrationsData) && nextRegistrationId == old(nextRegistrationId)
      ensures old(Consistent()) ==> Consistent()
    {
      if |eventsData| == 0 {
        var _ := LoadEventsFromFile(file, extractedAt);
      }
    }

    /** Every event with its current registration count. */
    method GetAllEventsWithRegistrations(file: Option<seq<Event>>, extractedAt: string)
      returns (r: seq<EventWithRegistrations>)
      modifies this
      ensures eventsData == LoadedEvents(old(eventsData), file, extractedAt)
      ensures registrationsData == old(registrationsData) && nextRegistrationId == old(nextRegistrationId)
      ensures r == EventsWithCounts(eventsData, registrationsData)
    {
      LoadIfEmpty(file, extractedAt);
      r := EventsWithCounts(eventsData, registrationsData);
    }

    /** The first event with the id, after the lazy load. */
    method GetEventById(id: EventId, file: Option<seq<Event>>, extractedAt: string) returns (r: Option<Event>)
      modifies this
      ensures eventsData == LoadedEvents(old(eventsData), file, extractedAt)
      ensures registrationsData == old(registrationsData) && nextRegistrationId == old(nextRegistrationId)
      ensures r == FindEvent(eventsData, id)
      ensures r.Some? <==> HasEvent(eventsData, id)
      ensures r.Some? ==> r.value.id == id && r.value in eventsData
      ensures old(Consistent()) ==> Consistent()
    {
      LoadIfEmpty(file, extractedAt);
      r := FindEvent(eventsData, id);
    }

    /**
     * Registers `email` for event `eventId`: the event must exist, the e-mail
     * must not be registered for it in any letter case, and it must have fewer
     * than two registrations. The kept record has the next number as its id,
     * the lower-cased e-mail and the trimmed name. A refusal changes nothing
     * but the lazy load.
     */
    method CreateRegistration(eventId: EventId, email: string, name: string,
                              file: Option<seq<Event>>, extractedAt: string, now: nat)
      returns (r: Result<Registration, AdmissionError>)
      modifies this
      ensures eventsData == LoadedEvents(old(eventsData), file, extractedAt)
      ensures r.Success? <==> Check(eventsData, old(registrationsData), {}, eventId, email) == None
      ensures r.Failure? ==> Some(r.error) == Check(eventsData, old(registrationsData), {}, eventId, email)
      ensures r.Failure? ==>
        registrationsData == old(registrationsData) && nextRegistrationId == old(nextRegistrationId)
      ensures r.Success? ==>
        && r.value == NewRecord(DecimalString(old(nextRegistrationId)), eventId, email, name, now)
        && registrationsData == old(registrationsData) + [r.value]
        && nextRegistrationId == old(nextRegistrationId) + 1
      ensures old(Valid()) ==>
        registrationsData == AdmitOne(eventsData, old(registrationsData), {}, eventId, email, name, now).0
      ensures old(Valid()) ==> Valid()
      ensures old(Valid() && Consistent()) ==> Consistent()
    {
      var event := GetEventById(eventId, file, extractedAt);
      ghost var before, counter := registrationsData, nextRegistrationId;
      if Valid() {
        CreateStepKeepsStoreInvariant(eventsData, before, counter, eventId, email, name, now);
      }
      r := AdmitFound(event, eventId, email, name, now);
    }

    /** The checks of `CreateRegistration`, in order, once the event has been looked up: the first one that fails, if any. */
    method Refusal(event: Option<Event>, eventId: EventId, email: string) returns (reason: Option<AdmissionError>)
      requires event.Some? <==> HasEvent(eventsData, eventId)
      ensures reason == Check(eventsData, registrationsData, {}, eventId, email)
    {
      CheckDecidesInOrder(eventsData, registrationsData, {}, eventId, email);
      if event.None? {
        return Some(EventNotFound);
      }
      if IsRegistered(registrationsData, eventId, email) {
        return Some(AlreadyRegistered);
      }
      var currentCount := CountFor(registrationsData, eventId);
      if currentCount >= 2 {
        return Some(EventFull);
      }
      return None;
    }

    /** The checks and the append of `CreateRegistration`, once the event has been looked up. */
    method AdmitFound(event: Option<Event>, eventId: EventId, email: string, name: string, now: nat)
      returns (r: Result<Registration, AdmissionError>)
      requires event.Some? <==> HasEvent(eventsData, eventId)
      modifies this
      ensures eventsData == old(eventsData)
      ensures Step(r, registrationsData, nextRegistrationId)
           == CreateStep(eventsData, old(registrationsData), old(nextRegistrationId), eventId, email, name, now)
    {
      var reason := Refusal(event, eventId, email);
      if reason.Some? {
        return Failure(reason.value);
      }
      var registration := Registration(DecimalString(nextRegistrationId), eventId, Lower(email), Trim(name), now);
      registrationsData := registrationsData + [registration];
      nextRegistrationId := nextRegistrationId + 1;
      return Success(registration);
    }

    /** The live registration list, in creation order. */
    function AllRegistrations(): (r: seq<Registration>)
      reads this
      ensures Valid() ==> |r| == nextRegistrationId - 1 && NumberedInOrder(r) && AllLowercase(r)
    {
      registrationsData
    }

    /**
     * The summary counts, with the per-event breakdown in event order; events
     * without registrations are omitted, so every group is non-empty and holds
     * exactly its event's registrations.
     */
    function RegistrationStatistics(): (r: (Statistics, seq<Group>))
      reads this
      ensures r.0 == StatisticsOf(eventsData, registrationsData)
      ensures r.1 == EventGroups(eventsData, registrationsData)
      ensures forall g :: g in r.1 ==> g.count > 0 && g == GroupFor(registrationsData, g.id)
    {
      (StatisticsOf(eventsData, registrationsData), EventGroups(eventsData, registrationsData))
    }

    /** Empties the store and restarts the numbering. */
    method ClearAllData()
      modifies this
      ensures eventsData == [] && registrationsData == [] && nextRegistrationId == 1
      ensures Valid() && Consistent()
    {
      eventsData := [];
      registrationsData := [];
      nextRegistrationId := 1;
    }
  }
}

/**
 * The registration endpoint over the document store: validate the request
 * body, look the event up, refuse a duplicate e-mail, enforce the two-place
 * limit except for the exempt events 14 and 15, then save the registration.
 */
module RegisterRoute {
  import opened Wrappers
  import opened Strings
  import opened Domain
  import opened Admission
  import opened Models
  import opened Validation

  /** Events without a registration limit. */
  const UnlimitedEventIds: set<EventId> := {14.0, 15.0}

  /** What the endpoint answers. */
  datatype Outcome =
    | Created(registration: Registration)
    | InvalidInput(issues: seq<Issue>)
    | Refused(reason: AdmissionError)
    | ServerError

  /** The request field a refusal points at. */
  datatype ErrorField = EventIdField | EmailField

  /** The HTTP status of each outcome. */
  function Status(o: Outcome): (code: nat)
    ensures code == 200 <==> o.Created?
    ensures code == 400 <==> o.InvalidInput?
    ensures code == 404 <==> o == Refused(EventNotFound)
    ensures code == 409 <==> o.Refused? && o.reason != EventNotFound
    ensures code == 500 <==> o.ServerError?
  {
    match o
    case Created(_) => 200
    case InvalidInput(_) => 400
    case Refused(EventNotFound) => 404
    case Refused(_) => 409
    case ServerError => 500
  }

  /** The field a refusal is reported against: the e-mail for a duplicate, the event id otherwise. */
  function RefusalField(reason: AdmissionError): (f: ErrorField)
    ensures f == EmailField <==> reason == AlreadyRegistered
    ensures f == EventIdField <==> reason != AlreadyRegistered
  {
    match reason
    case EventNotFound => EventIdField
    case AlreadyRegistered => EmailField
    case EventFull => EventIdField
  }

  /**
   * The answer to a request whose body validated to `v`, against the stored
   * events and registrations. `connected` is whether the store could be
   * reached; `objectId` and `now` are the identifier and time the store
   * assigns to a new document.
   */
  function Respond(events: seq<Event>, regs: seq<Registration>, v: Result<Submission, seq<Issue>>,
                   connected: bool, objectId: string, now: nat): (o: Outcome)
    ensures o.InvalidInput? <==> v.Failure?
    ensures v.Failure? ==> o.issues == v.error
    ensures v.Success? && !connected ==> o == ServerError
    ensures o.Refused? || o.Created? ==> v.Success? && connected
    ensures o == Refused(EventNotFound) <==> v.Success? && connected && !HasEvent(events, v.value.eventId)
    ensures o.Created? ==>
      && HasEvent(events, v.value.eventId)
      && !HasExactRegistration(regs, v.value.eventId, Lower(v.value.email))
      && (v.value.eventId !in UnlimitedEventIds ==> CountFor(regs, v.value.eventId) < Capacity)
      && o.registration.id == objectId && o.registration.eventId == v.value.eventId
      && o.registration.registeredAt == now
      && !IndexClash(regs, o.registration)
  {
    match v
    case Failure(issues) => InvalidInput(issues)
    case Success(s) =>
      if !connected then ServerError
      else if FindEvent(events, s.eventId).None? then Refused(EventNotFound)
      else if HasExactRegistration(regs, s.eventId, Lower(s.email)) then Refused(AlreadyRegistered)
      else if s.eventId !in UnlimitedEventIds && CountFor(regs, s.eventId) >= Capacity then Refused(EventFull)
      else
        match RecordFor(objectId, s.eventId, Lower(s.email), Trim(s.name), Some(now), now)
        case Failure(_) => ServerError
        case Success(record) => if IndexClash(regs, record) then ServerError else Created(record)
  }

  /** The endpoint with the name trimmed before its length is checked. */
  function RegisterResponse(events: seq<Event>, regs: seq<Registration>, body: Body, isEmail: string -> bool,
                            connected: bool, objectId: string, now: nat): (o: Outcome)
    ensures o.InvalidInput? <==> Validate(body, isEmail).Failure?
    ensures Validate(body, isEmail).Success? && !connected ==> o == ServerError
  {
    Respond(events, regs, Validate(body, isEmail), connected, objectId, now)
  }

  /** The endpoint with the request schema as written. */
  function RegisterResponseAsWritten(events: seq<Event>, regs: seq<Registration>, body: Body, isEmail: string -> bool,
                                     connected: bool, objectId: string, now: nat): (o: Outcome)
    ensures o.InvalidInput? <==> ValidateAsWritten(body, isEmail).Failure?
    ensures ValidateAsWritten(body, isEmail).Success? && !connected ==> o == ServerError
  {
    Respond(events, regs, ValidateAsWritten(body, isEmail), connected, objectId, now)
  }

  /**
   * The document saved for an accepted submission is the record the admission
   * rule keeps: e-mail lower-cased and name trimmed once, however often the
   * route and the schema setters apply them.
   */
  lemma SavedRecordIsNormalised(s: Submission, objectId: string, now: nat)
    requires EmailAccepted(Lower(s.email)) && NameAccepted(Trim(s.name))
    ensures RecordFor(objectId, s.eventId, Lower(s.email), Trim(s.name), Some(now), now)
         == Success(NewRecord(objectId, s.eventId, s.email, s.name, now))
  {
    LowerIdempotent(s.email);
    TrimIdempotent(s.name);
  }

  /**
   * Once a body validates and the store is reachable, the endpoint never
   * answers 500: the saved document always meets the schema and never
   * clashes with the unique index, because the duplicate check ran first.
   */
  lemma ConnectedHandlerNeverFails(events: seq<Event>, regs: seq<Registration>, body: Body,
                                   isEmail: string -> bool, objectId: string, now: nat)
    ensures RegisterResponse(events, regs, body, isEmail, true, objectId, now) != ServerError
    ensures var o := RegisterResponse(events, regs, body, isEmail, true, objectId, now);
      o.Created? ==> o.registration == NewRecord(objectId, Validate(body, isEmail).value.eventId,
                                                 Validate(body, isEmail).value.email,
                                                 Validate(body, isEmail).value.name, now)
  {
    var v := Validate(body, isEmail);
    if v.Success? {
      AcceptedSubmissionIsStorable(body, isEmail);
      AcceptedSubmissionIsSaved(events, regs, v.value, objectId, now);
    }
  }

  lemma AcceptedSubmissionIsSaved(events: seq<Event>, regs: seq<Registration>, s: Submission,
                                  objectId: string, now: nat)
    requires EmailAccepted(Lower(s.email)) && NameAccepted(Trim(s.name))
    ensures var o := Respond(events, regs, Success(s), true, objectId, now);
      o != ServerError && (o.Created? ==> o.registration == NewRecord(objectId, s.eventId, s.email, s.name, now))
  {
    SavedRecordIsNormalised(s, objectId, now);
  }

  /**
   * With stored e-mails in lower case, the endpoint takes the decision of the
   * admission rule with events 14 and 15 exempt from the limit: it creates
   * exactly when the rule admits, and refuses with exactly the rule's reason.
   */
  lemma HandlerDecidesLikeAdmission(events: seq<Event>, regs: seq<Registration>, body: Body,
                                    isEmail: string -> bool, objectId: string, now: nat)
    requires AllLowercase(regs)
    requires Validate(body, isEmail).Success?
    ensures var s := Validate(body, isEmail).value;
      var o := RegisterResponse(events, regs, body, isEmail, true, objectId, now);
      var verdict := Check(events, regs, UnlimitedEventIds, s.eventId, s.email);
      && (o.Created? <==> verdict == None)
      && (o.Created? ==> o.registration == NewRecord(objectId, s.eventId, s.email, s.name, now))
      && (o.Refused? <==> verdict.Some?)
      && (o.Refused? ==> verdict == Some(o.reason))
  {
    var s := Validate(body, isEmail).value;
    ConnectedHandlerNeverFails(events, regs, body, isEmail, objectId, now);
    ExactQueryIsCaseInsensitive(regs, s.eventId, s.email);
  }

  /**
   * The endpoint as written takes the same decision: past validation, it
   * creates exactly when the admission rule with events 14 and 15 exempt
   * admits and the trimmed name meets the store's name rule, saving the
   * normalised record; it refuses with exactly the rule's reason; and it
   * answers 500 exactly when the rule admits a name the store then rejects.
   */
  lemma HandlerDecidesLikeAdmissionAsWritten(events: seq<Event>, regs: seq<Registration>, body: Body,
                                             isEmail: string -> bool, objectId: string, now: nat)
    requires AllLowercase(regs)
    requires ValidateAsWritten(body, isEmail).Success?
    ensures var s := ValidateAsWritten(body, isEmail).value;
      var o := RegisterResponseAsWritten(events, regs, body, isEmail, true, objectId, now);
      var verdict := Check(events, regs, UnlimitedEventIds, s.eventId, s.email);
      && (o.Created? <==> verdict == None && NameAccepted(Trim(s.name)))
      && (o.Created? ==> o.registration == NewRecord(objectId, s.eventId, s.email, s.name, now))
      && (o.Refused? <==> verdict.Some?)
      && (o.Refused? ==> verdict == Some(o.reason))
      && (o == ServerError <==> verdict == None && !NameAccepted(Trim(s.name)))
  {
    var s := ValidateAsWritten(body, isEmail).value;
    DomainSuffixIsLower();
    LowerKeepsLowerSuffix(s.email, DomainSuffix);
    RespondDecidesLikeAdmission(events, regs, s, objectId, now);
  }

  /**
   * The decision once a submission with an address in the domain has passed
   * validation and the store is reachable, whichever schema passed it.
   */
  lemma RespondDecidesLikeAdmission(events: seq<Event>, regs: seq<Registration>, s: Submission,
                                    objectId: string, now: nat)
    requires AllLowercase(regs)
    requires EmailAccepted(Lower(s.email))
    ensures var o := Respond(events, regs, Success(s), true, objectId, now);
      var verdict := Check(events, regs, UnlimitedEventIds, s.eventId, s.email);
      && (o.Created? <==> verdict == None && NameAccepted(Trim(s.name)))
      && (o.Created? ==> o.registration == NewRecord(objectId, s.eventId, s.email, s.name, now))
      && (o.Refused? <==> verdict.Some?)
      && (o.Refused? ==> verdict == Some(o.reason))
      && (o == ServerError <==> verdict == None && !NameAccepted(Trim(s.name)))
  {
    LowerIdempotent(s.email);
    ExactQueryIsCaseInsensitive(regs, s.eventId, s.email);
    if NameAccepted(Trim(s.name)) {
      AcceptedSubmissionIsSaved(events, regs, s, objectId, now);
    }
  }

  /**
   * A registration the endpoint creates keeps the admission invariant with
   * events 14 and 15 exempt (so no other event ever exceeds two
   * registrations) and raises only its own event's count, by one.
   */
  lemma CreatedKeepsCapacity(events: seq<Event>, regs: seq<Registration>, body: Body,
                             isEmail: string -> bool, objectId: string, now: nat)
    requires Admitted(events, regs, UnlimitedEventIds)
    requires RegisterResponse(events, regs, body, isEmail, true, objectId, now).Created?
    ensures var r := RegisterResponse(events, regs, body, isEmail, true, objectId, now).registration;
      && Admitted(events, regs + [r], UnlimitedEventIds)
      && forall id :: CountFor(regs + [r], id) == CountFor(regs, id) + (if id == r.eventId then 1 else 0)
  {
    var s := Validate(body, isEmail).value;
    HandlerDecidesLikeAdmission(events, regs, body, isEmail, objectId, now);
    AdmissionPreservesInvariant(events, regs, UnlimitedEventIds, objectId, s.eventId, s.email, s.name, now);
  }

  /**
   * As written, the schema lets a padded one-letter name through; the store's
   * own name rule then rejects the trimmed one-letter name and the endpoint
   * answers 500 where a 400 was intended. With the name trimmed first the
   * same request is answered 400.
   */
  lemma PaddedShortNameGives500AsWritten(events: seq<Event>, email: string, isEmail: string -> bool,
                                         objectId: string, now: nat)
    requires HasEvent(events, 1.0)
    requires isEmail(email) && EndsWith(email, DomainSuffix)
    ensures var body := ObjectBody(JNumber(1.0), JString(" a"), JString(email));
      && RegisterResponseAsWritten(events, [], body, isEmail, true, objectId, now) == ServerError
      && Status(RegisterResponse(events, [], body, isEmail, true, objectId, now)) == 400
  {
    var body := ObjectBody(JNumber(1.0), JString(" a"), JString(email));
    PaddedShortNameAcceptedAsWritten(email, isEmail);
    TrimOfTrimmed("a");
    assert !NameAccepted(Trim("a"));
    assert !NameOk(JString(" a"));
  }

  /** The unique index on event ids, the registration schema and the unique (eventId, email) index. */
  ghost predicate StoreValid(events: seq<Event>, regs: seq<Registration>) {
    && UniqueEventIds(events)
    && (forall i :: 0 <= i < |regs| ==> ValidRecord(regs[i]))
    && UniqueIndex(regs)
  }

  /** Saving a document the schema accepts and the unique index admits keeps the store's constraints. */
  lemma SaveKeepsStoreValid(events: seq<Event>, regs: seq<Registration>, objectId: string,
                            s: Submission, now: nat)
    requires StoreValid(events, regs)
    requires RecordFor(objectId, s.eventId, Lower(s.email), Trim(s.name), Some(now), now).Success?
    requires !IndexClash(regs, RecordFor(objectId, s.eventId, Lower(s.email), Trim(s.name), Some(now), now).value)
    ensures StoreValid(events, regs + [RecordFor(objectId, s.eventId, Lower(s.email), Trim(s.name), Some(now), now).value])
  {
    var document := RecordFor(objectId, s.eventId, Lower(s.email), Trim(s.name), Some(now), now).value;
    AcceptedRecordIsValid(objectId, s.eventId, Lower(s.email), Trim(s.name), Some(now), now);
    AppendKeepsIndexUnique(regs, document);
  }

  /** A 200 answer saves a document that keeps the store's constraints. */
  lemma CreatedKeepsStoreValid(events: seq<Event>, regs: seq<Registration>, v: Result<Submission, seq<Issue>>,
                               connected: bool, objectId: string, now: nat)
    requires StoreValid(events, regs)
    requires Respond(events, regs, v, connected, objectId, now).Created?
    ensures StoreValid(events, regs + [Respond(events, regs, v, connected, objectId, now).registration])
  {
    var s := v.value;
    var document := RecordFor(objectId, s.eventId, Lower(s.email), Trim(s.name), Some(now), now);
    assert document.Success? && !IndexClash(regs, document.value);
    SaveKeepsStoreValid(events, regs, objectId, s, now);
  }

  /**
   * A 200 answer keeps the admission invariant with events 14 and 15 exempt,
   * whichever schema validated the body: the record saved is the admission
   * rule's record, and the route's checks are the rule's checks.
   */
  lemma CreatedKeepsAdmission(events: seq<Event>, regs: seq<Registration>, v: Result<Submission, seq<Issue>>,
                              connected: bool, objectId: string, now: nat)
    requires Admitted(events, regs, UnlimitedEventIds)
    requires Respond(events, regs, v, connected, objectId, now).Created?
    ensures Admitted(events, regs + [Respond(events, regs, v, connected, objectId, now).registration], UnlimitedEventIds)
  {
    var s := v.value;
    SavedRecordIsNormalised(s, objectId, now);
    ExactQueryIsCaseInsensitive(regs, s.eventId, s.email);
    assert Check(events, regs, UnlimitedEventIds, s.eventId, s.email) == None;
    AdmissionPreservesInvariant(events, regs, UnlimitedEventIds, objectId, s.eventId, s.email, s.name, now);
  }

  /** The document store: the event and registration collections. */
  class Database {
    var events: seq<Event>
    var registrations: seq<Registration>

    /** The store's constraints, and the admission invariant with events 14 and 15 exempt. */
    ghost predicate Valid()
      reads this
    {
      StoreValid(events, registrations) && Admitted(events, registrations, UnlimitedEventIds)
    }

    constructor (initialEvents: seq<Event>)
      requires UniqueEventIds(initialEvents)
      ensures events == initialEvents && registrations == []
      ensures Valid()
    {
      events := initialEvents;
      registrations := [];
    }

    /**
     * Handles one registration request as the endpoint is written: answers as
     * `RegisterResponseAsWritten` on the state before the call (so a padded
     * one-letter name gets 500), and saves the registration exactly when it
     * answers 200. The store's constraints and the admission invariant are kept.
     */
    method Register(body: Body, isEmail: string -> bool, connected: bool, objectId: string, now: nat)
      returns (out: Outcome)
      modifies this
      ensures out == RegisterResponseAsWritten(old(events), old(registrations), body, isEmail, connected, objectId, now)
      ensures events == old(events)
      ensures registrations == if out.Created? then old(registrations) + [out.registration] else old(registrations)
      ensures old(Valid()) ==> Valid()
    {
      var validation := ValidateAsWritten(body, isEmail);
      out := Respond(events, registrations, validation, connected, objectId, now);
      if out.Created? {
        if Valid() {
          CreatedKeepsStoreValid(events, registrations, validation, connected, objectId, now);
          CreatedKeepsAdmission(events, registrations, validation, connected, objectId, now);
        }
        registrations := registrations + [out.registration];
      }
    }
  }
}

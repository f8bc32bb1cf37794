/**
 * The admission rule shared by the in-memory store and the request handler.
 * A registration for (event, e-mail) is checked in a fixed order: the event must
 * exist, the person must not already be registered for it (e-mails compared
 * case-insensitively), and an event that is not exempt must have fewer than two
 * registrations. The exempt ids are a parameter: the in-memory store exempts
 * nothing, the handler exempts ids 14 and 15.
 */
module Admission {
  import opened Wrappers
  import opened Strings
  import opened Domain

  /** The number of registrations for event `id`. */
  function CountFor(regs: seq<Registration>, id: EventId): (n: nat)
    ensures n <= |regs|
  {
    if regs == [] then 0
    else CountFor(regs[..|regs| - 1], id) + (if regs[|regs| - 1].eventId == id then 1 else 0)
  }

  /** The positions of the registrations for event `id`. */
  ghost function PositionsFor(regs: seq<Registration>, id: EventId): set<nat> {
    set i: nat | i < |regs| && regs[i].eventId == id
  }

  /** The count agrees with its reference definition: the number of positions holding a registration for `id`. */
  lemma {:induction false} CountIsNumberOfMatchingRecords(regs: seq<Registration>, id: EventId)
    ensures CountFor(regs, id) == |PositionsFor(regs, id)|
  {
    if regs != [] {
      var n := |regs| - 1;
      var front := regs[..n];
      CountIsNumberOfMatchingRecords(front, id);
      var before := PositionsFor(front, id);
      if regs[n].eventId == id {
        assert PositionsFor(regs, id) == before + {n};
        assert n !in before;
      } else {
        assert PositionsFor(regs, id) == before;
      }
    }
  }

  /** Appending one registration adds one to its event's count and leaves every other count alone. */
  lemma CountAppend(regs: seq<Registration>, r: Registration, id: EventId)
    ensures CountFor(regs + [r], id) == CountFor(regs, id) + (if r.eventId == id then 1 else 0)
  {
    assert (regs + [r])[..|regs|] == regs;
  }

  /** The first event with the given id (`Array.prototype.find`). */
  function FindEvent(events: seq<Event>, id: EventId): (r: Option<Event>)
    ensures r.Some? <==> HasEvent(events, id)
    ensures r.Some? ==> r.value.id == id
    ensures r.Some? ==> exists k :: 0 <= k < |events| && events[k] == r.value
                          && forall j :: 0 <= j < k ==> events[j].id != id
  {
    if events == [] then None
    else if events[0].id == id then
      assert events[0] == events[0];
      Some(events[0])
    else
      var r := FindEvent(events[1..], id);
      assert HasEvent(events, id) ==> HasEvent(events[1..], id) by {
        if HasEvent(events, id) {
          var k :| 0 <= k < |events| && events[k].id == id;
          assert events[1..][k - 1].id == id;
        }
      }
      if r.Some? then
        var k :| 0 <= k < |events[1..]| && events[1..][k] == r.value && forall j :: 0 <= j < k ==> events[1..][j].id != id;
        assert events[k + 1] == r.value;
        r
      else r
  }

  /** With unique ids, the event found is the only one carrying that id. */
  lemma FoundEventIsTheOne(events: seq<Event>, id: EventId, k: nat)
    requires UniqueEventIds(events) && k < |events| && events[k].id == id
    ensures FindEvent(events, id) == Some(events[k])
  {
  }

  /** Some registration for `id` has an e-mail equal to `email` ignoring case. */
  predicate IsRegistered(regs: seq<Registration>, id: EventId, email: string) {
    exists i :: 0 <= i < |regs| && regs[i].eventId == id && Lower(regs[i].email) == Lower(email)
  }

  /** The store's exact-match query for a registration with an already lower-cased e-mail. */
  predicate HasExactRegistration(regs: seq<Registration>, id: EventId, loweredEmail: string) {
    exists i :: 0 <= i < |regs| && regs[i].eventId == id && regs[i].email == loweredEmail
  }

  /** All stored e-mails are lower case. */
  ghost predicate AllLowercase(regs: seq<Registration>) {
    forall i :: 0 <= i < |regs| ==> IsLower(regs[i].email)
  }

  /** When stored e-mails are lower case, the exact query on the lower-cased e-mail is the case-insensitive check. */
  lemma ExactQueryIsCaseInsensitive(regs: seq<Registration>, id: EventId, email: string)
    requires AllLowercase(regs)
    ensures HasExactRegistration(regs, id, Lower(email)) <==> IsRegistered(regs, id, email)
  {
  }

  datatype AdmissionError = EventNotFound | AlreadyRegistered | EventFull

  /** Whether the capacity check applies to `id`. */
  predicate Limited(exempt: set<EventId>, id: EventId) {
    id !in exempt
  }

  /** The admission decision; `None` admits the registration, otherwise the first failing check is named. */
  function Check(events: seq<Event>, regs: seq<Registration>, exempt: set<EventId>,
                 id: EventId, email: string): (r: Option<AdmissionError>)
    ensures r == None ==> HasEvent(events, id) && !IsRegistered(regs, id, email)
    ensures r == None && Limited(exempt, id) ==> CountFor(regs, id) < Capacity
  {
    if FindEvent(events, id).None? then Some(EventNotFound)
    else if IsRegistered(regs, id, email) then Some(AlreadyRegistered)
    else if Limited(exempt, id) && CountFor(regs, id) >= Capacity then Some(EventFull)
    else None
  }

  /**
   * The checks run in the order existence, duplicate, capacity: each verdict
   * holds exactly when its own check fails and every earlier one passes, and
   * an exempt event is never refused as full.
   */
  lemma CheckDecidesInOrder(events: seq<Event>, regs: seq<Registration>, exempt: set<EventId>,
                            id: EventId, email: string)
    ensures var r := Check(events, regs, exempt, id, email);
      && (r == None <==>
            HasEvent(events, id) && !IsRegistered(regs, id, email)
            && (Limited(exempt, id) ==> CountFor(regs, id) < Capacity))
      && (r == Some(EventNotFound) <==> !HasEvent(events, id))
      && (r == Some(AlreadyRegistered) <==> HasEvent(events, id) && IsRegistered(regs, id, email))
      && (r == Some(EventFull) <==>
            HasEvent(events, id) && !IsRegistered(regs, id, email)
            && Limited(exempt, id) && CountFor(regs, id) >= Capacity)
  {
  }

  /** The record kept on admission: e-mail lower-cased, name trimmed. */
  function NewRecord(recordId: string, id: EventId, email: string, name: string, now: nat): (r: Registration)
    ensures IsLower(r.email) && IsTrimmed(r.name)
    ensures r.eventId == id && r.registeredAt == now && r.id == recordId
    ensures Lower(r.email) == Lower(email) && |r.email| == |email| && r.name == Trim(name)
  {
    LowerIdempotent(email);
    TrimResultIsTrimmed(name);
    Registration(recordId, id, Lower(email), Trim(name), now)
  }

  /** No two registrations for the same event share an e-mail, ignoring case. */
  ghost predicate NoDuplicates(regs: seq<Registration>) {
    forall i, j :: 0 <= i < j < |regs| ==>
      !(regs[i].eventId == regs[j].eventId && Lower(regs[i].email) == Lower(regs[j].email))
  }

  /** Every event outside the exempt set has at most two registrations. */
  ghost predicate WithinCapacity(regs: seq<Registration>, exempt: set<EventId>) {
    forall id :: Limited(exempt, id) ==> CountFor(regs, id) <= Capacity
  }

  /** Every registration names a known event. */
  ghost predicate ReferencesKnownEvents(events: seq<Event>, regs: seq<Registration>) {
    forall i :: 0 <= i < |regs| ==> HasEvent(events, regs[i].eventId)
  }

  /** The invariant the admission rule maintains over any registration list. */
  ghost predicate WellFormed(regs: seq<Registration>, exempt: set<EventId>) {
    && NoDuplicates(regs)
    && AllLowercase(regs)
    && WithinCapacity(regs, exempt)
  }

  /** The invariant together with every registration naming a known event. */
  ghost predicate Admitted(events: seq<Event>, regs: seq<Registration>, exempt: set<EventId>) {
    WellFormed(regs, exempt) && ReferencesKnownEvents(events, regs)
  }

  /**
   * Appending an admitted record keeps the invariant (and keeps every record
   * naming a known event) and raises exactly that event's count by one.
   */
  lemma AdmissionPreservesInvariant(events: seq<Event>, regs: seq<Registration>, exempt: set<EventId>,
                                    recordId: string, id: EventId, email: string, name: string, now: nat)
    requires WellFormed(regs, exempt)
    requires Check(events, regs, exempt, id, email) == None
    ensures var regs' := regs + [NewRecord(recordId, id, email, name, now)];
      && WellFormed(regs', exempt)
      && (ReferencesKnownEvents(events, regs) ==> ReferencesKnownEvents(events, regs'))
      && forall other :: CountFor(regs', other) == CountFor(regs, other) + (if other == id then 1 else 0)
  {
    var r := NewRecord(recordId, id, email, name, now);
    var regs' := regs + [r];
    forall other ensures CountFor(regs', other) == CountFor(regs, other) + (if other == id then 1 else 0) {
      CountAppend(regs, r, other);
    }
    assert NoDuplicates(regs') by {
      forall i, j | 0 <= i < j < |regs'|
        ensures !(regs'[i].eventId == regs'[j].eventId && Lower(regs'[i].email) == Lower(regs'[j].email))
      {
        if j == |regs| {
          assert regs'[j] == r;
          assert regs'[i] == regs[i];
        }
      }
    }
  }

  // ------------------------------------------------- successive admissions

  /** E-mails not yet registered for `id` and pairwise different ignoring case. */
  ghost predicate FreshEmails(regs: seq<Registration>, id: EventId, emails: seq<string>) {
    && (forall k :: 0 <= k < |emails| ==> !IsRegistered(regs, id, emails[k]))
    && (forall j, k :: 0 <= j < k < |emails| ==> Lower(emails[j]) != Lower(emails[k]))
  }

  /** One admission attempt: the verdict, and the list with the new record appended when admitted. */
  function AdmitOne(events: seq<Event>, regs: seq<Registration>, exempt: set<EventId>,
                    id: EventId, email: string, name: string, now: nat)
    : (out: (seq<Registration>, Option<AdmissionError>))
    ensures out.1 == Check(events, regs, exempt, id, email)
    ensures out.0 == if out.1 == None
                     then regs + [NewRecord(DecimalString(|regs| + 1), id, email, name, now)]
                     else regs
    ensures forall other :: CountFor(out.0, other) == CountFor(regs, other) + (if out.1 == None && other == id then 1 else 0)
    ensures WellFormed(regs, exempt) ==> WellFormed(out.0, exempt)
  {
    var verdict := Check(events, regs, exempt, id, email);
    if verdict == None then
      var r := NewRecord(DecimalString(|regs| + 1), id, email, name, now);
      assert forall other :: CountFor(regs + [r], other) == CountFor(regs, other) + (if other == id then 1 else 0) by {
        forall other ensures CountFor(regs + [r], other) == CountFor(regs, other) + (if other == id then 1 else 0) {
          CountAppend(regs, r, other);
        }
      }
      assert WellFormed(regs, exempt) ==> WellFormed(regs + [r], exempt) by {
        if WellFormed(regs, exempt) {
          AdmissionPreservesInvariant(events, regs, exempt, DecimalString(|regs| + 1), id, email, name, now);
        }
      }
      (regs + [r], verdict)
    else (regs, verdict)
  }

  /**
   * Admitting `emails` one after another for event `id`, numbering each kept
   * record after the list's length as the in-memory store does; yields the final
   * list and each attempt's verdict.
   */
  function AdmitEach(events: seq<Event>, regs: seq<Registration>, exempt: set<EventId>,
                     id: EventId, emails: seq<string>, name: string, now: nat)
    : (out: (seq<Registration>, seq<Option<AdmissionError>>))
    ensures |out.1| == |emails|
    decreases |emails|
  {
    if emails == [] then (regs, [])
    else
      var first := AdmitOne(events, regs, exempt, id, emails[0], name, now);
      var rest := AdmitEach(events, first.0, exempt, id, emails[1..], name, now);
      (rest.0, [first.1] + rest.1)
  }

  /** After admitting `e`, the remaining fresh e-mails are still fresh. */
  lemma FreshAfterAdmitting(regs: seq<Registration>, id: EventId, emails: seq<string>, r: Registration)
    requires |emails| > 0 && FreshEmails(regs, id, emails)
    requires Lower(r.email) == Lower(emails[0])
    ensures FreshEmails(regs + [r], id, emails[1..])
  {
    var regs' := regs + [r];
    forall k | 0 <= k < |emails[1..]| ensures !IsRegistered(regs', id, emails[1..][k]) {
      assert emails[1..][k] == emails[k + 1];
    }
  }

  /** Dropping the first e-mail keeps the rest fresh. */
  lemma FreshTail(regs: seq<Registration>, id: EventId, emails: seq<string>)
    requires |emails| > 0 && FreshEmails(regs, id, emails)
    ensures FreshEmails(regs, id, emails[1..])
  {
    forall k | 0 <= k < |emails[1..]| ensures !IsRegistered(regs, id, emails[1..][k]) {
      assert emails[1..][k] == emails[k + 1];
    }
  }

  /**
   * For an event with the standard capacity and fresh e-mails, exactly the
   * attempts that fit into the remaining places succeed; every later one is
   * refused as full. From an empty event: the first two succeed, the third fails.
   */
  lemma {:induction false} StandardEventFillsUp(events: seq<Event>, regs: seq<Registration>, exempt: set<EventId>,
                                                id: EventId, emails: seq<string>, name: string, now: nat)
    requires HasEvent(events, id) && Limited(exempt, id)
    requires CountFor(regs, id) <= Capacity
    requires FreshEmails(regs, id, emails)
    ensures forall k :: 0 <= k < |emails| ==>
      AdmitEach(events, regs, exempt, id, emails, name, now).1[k]
        == (if k < Capacity - CountFor(regs, id) then None else Some(EventFull))
    decreases |emails|
  {
    if emails != [] {
      var c := CountFor(regs, id);
      var first := AdmitOne(events, regs, exempt, id, emails[0], name, now);
      var rest := AdmitEach(events, first.0, exempt, id, emails[1..], name, now);
      var out := AdmitEach(events, regs, exempt, id, emails, name, now);
      assert out.1 == [first.1] + rest.1;
      CheckDecidesInOrder(events, regs, exempt, id, emails[0]);
      assert !IsRegistered(regs, id, emails[0]);
      if c < Capacity {
        assert first.1 == None;
        var r := NewRecord(DecimalString(|regs| + 1), id, emails[0], name, now);
        assert first.0 == regs + [r];
        CountAppend(regs, r, id);
        FreshAfterAdmitting(regs, id, emails, r);
      } else {
        assert first.1 == Some(EventFull);
        assert first.0 == regs;
        FreshTail(regs, id, emails);
      }
      var c' := CountFor(first.0, id);
      assert c' == if c < Capacity then c + 1 else c;
      StandardEventFillsUp(events, first.0, exempt, id, emails[1..], name, now);
      forall k | 0 <= k < |emails|
        ensures out.1[k] == (if k < Capacity - c then None else Some(EventFull))
      {
        if k > 0 {
          var j := k - 1;
          assert 0 <= j < |emails[1..]|;
          assert out.1[k] == rest.1[j];
          assert rest.1[j] == (if j < Capacity - c' then None else Some(EventFull));
        }
      }
    }
  }

  /** For an exempt event, every fresh e-mail is admitted and the count grows by the number of attempts. */
  lemma {:induction false} ExemptEventTakesEveryone(events: seq<Event>, regs: seq<Registration>, exempt: set<EventId>,
                                                    id: EventId, emails: seq<string>, name: string, now: nat)
    requires HasEvent(events, id) && !Limited(exempt, id)
    requires FreshEmails(regs, id, emails)
    ensures forall v :: v in AdmitEach(events, regs, exempt, id, emails, name, now).1 ==> v == None
    ensures CountFor(AdmitEach(events, regs, exempt, id, emails, name, now).0, id) == CountFor(regs, id) + |emails|
    decreases |emails|
  {
    var out := AdmitEach(events, regs, exempt, id, emails, name, now);
    if emails == [] {
      assert out == (regs, []);
    } else {
      var first := AdmitOne(events, regs, exempt, id, emails[0], name, now);
      var rest := AdmitEach(events, first.0, exempt, id, emails[1..], name, now);
      assert out.0 == rest.0 && out.1 == [first.1] + rest.1;
      CheckDecidesInOrder(events, regs, exempt, id, emails[0]);
      assert first.1 == None;
      var r := NewRecord(DecimalString(|regs| + 1), id, emails[0], name, now);
      assert first.0 == regs + [r];
      CountAppend(regs, r, id);
      FreshAfterAdmitting(regs, id, emails, r);
      ExemptEventTakesEveryone(events, first.0, exempt, id, emails[1..], name, now);
      forall v | v in out.1 ensures v == None {
        assert v == first.1 || v in rest.1;
      }
    }
  }
}

/**
 * The registration listing: every registration joined to a summary of its
 * event (or to nothing when the id names no event), the summary statistics and
 * the per-event breakdown. The database branch answers when the store can be
 * reached; otherwise the in-memory store answers.
 */
module RegistrationsRoute {
  import opened Wrappers
  import opened Domain
  import opened Admission
  import opened Sorting
  import opened Aggregation
  import opened MockDatabase

  /** Which store produced the listing. */
  datatype Source = FromDatabase | FromMock

  datatype Listing = Listing(
    source: Source,
    registrations: seq<Joined>,
    statistics: Statistics,
    registrationsByEvent: seq<Group>)

  /** Sort key putting the most recent registration first. */
  function NewestFirst(r: Registration): real {
    -(r.registeredAt as real)
  }

  /** The registrations a joined list carries, in order. */
  function RegistrationsOf(joined: seq<Joined>): (r: seq<Registration>)
    ensures |r| == |joined| && forall i :: 0 <= i < |r| ==> r[i] == joined[i].registration
  {
    seq(|joined|, i requires 0 <= i < |joined| => joined[i].registration)
  }

  /** The database branch: newest first, joined to the event table; statistics and the sorted group-by over the stored lists. */
  function DatabaseListing(events: seq<Event>, regs: seq<Registration>): (r: Listing)
    ensures r.source == FromDatabase && |r.registrations| == |regs|
  {
    var sorted := SortBy(regs, NewestFirst);
    Listing(FromDatabase, JoinEvents(sorted, EventMap(events)), StatisticsOf(events, regs), RegistrationsByEvent(regs))
  }

  /** A sequence without repeats has as many distinct elements as entries. */
  lemma {:induction false} DistinctHasNoRepeats(ids: seq<EventId>)
    requires Distinct(ids)
    ensures |set x | x in ids| == |ids|
  {
    if ids != [] {
      var tail := ids[1..];
      assert Distinct(tail) by {
        forall i, j | 0 <= i < j < |tail| ensures tail[i] != tail[j] {
          assert tail[i] == ids[i + 1] && tail[j] == ids[j + 1];
        }
      }
      DistinctHasNoRepeats(tail);
      assert (set x | x in ids) == {ids[0]} + (set x | x in tail);
      forall k | 0 <= k < |tail| ensures tail[k] != ids[0] {
        assert tail[k] == ids[k + 1];
      }
    }
  }

  /** The group-by has one group per distinct registered event id. */
  lemma GroupsPerRegisteredEvent(regs: seq<Registration>)
    ensures |RegistrationsByEvent(regs)| == |RegisteredEventIds(regs)|
  {
    var ids := DistinctIds(regs);
    DistinctHasNoRepeats(ids);
    assert (set x | x in ids) == RegisteredEventIds(regs);
  }

  /**
   * The database listing holds every stored registration exactly once, the
   * most recent first, and each one carries the summary of the event with its
   * id, or nothing exactly when no event has that id.
   */
  lemma DatabaseListingJoinsEvents(events: seq<Event>, regs: seq<Registration>)
    requires UniqueEventIds(events)
    ensures var l := DatabaseListing(events, regs).registrations;
      && multiset(RegistrationsOf(l)) == multiset(regs)
      && (forall i, j :: 0 <= i < j < |l| ==> l[i].registration.registeredAt >= l[j].registration.registeredAt)
      && (forall i :: 0 <= i < |l| ==>
            && (l[i].event == None <==> !HasEvent(events, l[i].registration.eventId))
            && (l[i].event.Some? ==>
                  exists e :: e in events && e.id == l[i].registration.eventId && l[i].event.value == Summary(e)))
  {
    NewestFirstJoin(events, regs);
    assert DatabaseListing(events, regs).registrations == JoinEvents(SortBy(regs, NewestFirst), EventMap(events));
  }

  /** The newest-first join, stated on the sort and the join themselves. */
  lemma NewestFirstJoin(events: seq<Event>, regs: seq<Registration>)
    requires UniqueEventIds(events)
    ensures var l := JoinEvents(SortBy(regs, NewestFirst), EventMap(events));
      && multiset(RegistrationsOf(l)) == multiset(regs)
      && (forall i, j :: 0 <= i < j < |l| ==> l[i].registration.registeredAt >= l[j].registration.registeredAt)
      && (forall i :: 0 <= i < |l| ==>
            && (l[i].event == None <==> !HasEvent(events, l[i].registration.eventId))
            && (l[i].event.Some? ==>
                  exists e :: e in events && e.id == l[i].registration.eventId && l[i].event.value == Summary(e)))
  {
    var sorted := SortBy(regs, NewestFirst);
    var l := JoinEvents(sorted, EventMap(events));
    JoinedSummariesFromEvents(events, sorted);
    assert RegistrationsOf(l) == sorted;
    forall i, j | 0 <= i < j < |l| ensures l[i].registration.registeredAt >= l[j].registration.registeredAt {
      assert NewestFirst(sorted[i]) <= NewestFirst(sorted[j]);
    }
  }

  /** Each joined registration carries the summary of an event with its id, or nothing exactly when none exists. */
  lemma JoinedSummariesFromEvents(events: seq<Event>, regs: seq<Registration>)
    requires UniqueEventIds(events)
    ensures var l := JoinEvents(regs, EventMap(events));
      forall i :: 0 <= i < |l| ==>
        && (l[i].event == None <==> !HasEvent(events, l[i].registration.eventId))
        && (l[i].event.Some? ==>
              exists e :: e in events && e.id == l[i].registration.eventId && l[i].event.value == Summary(e))
  {
    var l := JoinEvents(regs, EventMap(events));
    JoinAttachesOwnEvent(events, regs);
    forall i | 0 <= i < |l| && l[i].event.Some?
      ensures exists e :: e in events && e.id == l[i].registration.eventId && l[i].event.value == Summary(e)
    {
      var e := EventMap(events)[regs[i].eventId];
      assert e in events;
    }
  }

  /**
   * The database statistics: the total is the number of registrations and the
   * sum of the breakdown's counts; the events with registrations are the
   * distinct registered ids, one group each; the rest are the events without;
   * the average is the quotient guarded against zero events.
   */
  lemma DatabaseListingStatistics(events: seq<Event>, regs: seq<Registration>)
    ensures var s := StatisticsOf(events, regs);
      var gs := RegistrationsByEvent(regs);
      && s.totalRegistrations == |regs| == SumCounts(gs)
      && s.totalEvents == |events|
      && s.eventsWithRegistrations == |RegisteredEventIds(regs)| == |gs|
      && s.eventsWithoutRegistrations == |events| - |RegisteredEventIds(regs)|
      && s.averageRegistrationsPerEvent == Average(|regs|, |events|)
  {
    RegistrationsByEventAccountsForAll(regs);
    GroupsPerRegisteredEvent(regs);
  }

  /**
   * The in-memory branch: the store's registrations in creation order, joined
   * against the events after the lazy load, with the statistics and breakdown
   * the store computed before that load.
   */
  method MockListing(store: MockStore, file: Option<seq<Event>>, extractedAt: string) returns (l: Listing)
    modifies store
    ensures store.eventsData == LoadedEvents(old(store.eventsData), file, extractedAt)
    ensures store.registrationsData == old(store.registrationsData)
    ensures store.nextRegistrationId == old(store.nextRegistrationId)
    ensures l.source == FromMock
    ensures l.registrations == JoinEvents(store.registrationsData, EventMap(store.eventsData))
    ensures l.statistics == StatisticsOf(old(store.eventsData), store.registrationsData)
    ensures l.registrationsByEvent == EventGroups(old(store.eventsData), store.registrationsData)
  {
    var registrations := store.AllRegistrations();
    var statistics := store.RegistrationStatistics();
    var events := store.GetAllEventsWithRegistrations(file, extractedAt);
    EventCountsMatchRecords(store.eventsData, store.registrationsData);
    l := Listing(FromMock, JoinEvents(registrations, EventMap(EventsOf(events))), statistics.0, statistics.1);
  }

  /**
   * The handler: the database listing when the store is reachable (the
   * in-memory store is then left alone), the in-memory listing otherwise.
   */
  method ListRegistrations(connected: bool, events: seq<Event>, regs: seq<Registration>,
                           store: MockStore, file: Option<seq<Event>>, extractedAt: string)
    returns (l: Listing)
    modifies store
    ensures connected ==> l == DatabaseListing(events, regs)
    ensures connected ==> store.eventsData == old(store.eventsData)
    ensures !connected ==>
      && store.eventsData == LoadedEvents(old(store.eventsData), file, extractedAt)
      && l.source == FromMock
      && l.registrations == JoinEvents(store.registrationsData, EventMap(store.eventsData))
      && l.statistics == StatisticsOf(old(store.eventsData), store.registrationsData)
      && l.registrationsByEvent == EventGroups(old(store.eventsData), store.registrationsData)
    ensures store.registrationsData == old(store.registrationsData)
    ensures store.nextRegistrationId == old(store.nextRegistrationId)
  {
    if connected {
      l := DatabaseListing(events, regs);
    } else {
      l := MockListing(store, file, extractedAt);
    }
  }

  /**
   * Once the in-memory store holds a registration for a known event, its
   * events are loaded, so the statistics it reports before the lazy load are
   * those of the events the join uses, and the events without registrations
   * number the events outside the breakdown.
   */
  lemma MockStatisticsMatchLoadedEvents(events: seq<Event>, regs: seq<Registration>,
                                        file: Option<seq<Event>>, extractedAt: string)
    requires regs != [] && ReferencesKnownEvents(events, regs) && UniqueEventIds(events)
    ensures LoadedEvents(events, file, extractedAt) == events
    ensures StatisticsOf(events, regs).eventsWithoutRegistrations == |IdleEvents(events, regs)| >= 0
  {
    assert HasEvent(events, regs[0].eventId);
    StatisticsAccountForEveryEvent(events, regs);
  }
}

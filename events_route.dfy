/**
 * The event listing served by the database-backed handler: every stored event
 * in ascending id order, each with the number of registrations the group-by
 * reports for its id (zero when there are none) and the fully-booked flag.
 */
module EventsRoute {
  import opened Domain
  import opened Admission
  import opened Sorting
  import opened Aggregation

  /** The listing, or the 500 response when the store cannot be reached. */
  datatype EventsResponse = Listed(events: seq<EventWithRegistrations>) | LoadFailed

  /** Sort key for ascending ids. */
  function ById(e: Event): real {
    e.id
  }

  /** The counted entry for one event, looked up in the count table with a default of 0. */
  function Entry(e: Event, counts: map<EventId, nat>): (r: EventWithRegistrations)
    ensures r.event == e && r.registrationCount == CountOrZero(counts, e.id)
    ensures r.isFullyBooked <==> CountOrZero(counts, e.id) >= Capacity
  {
    WithCount(e, CountOrZero(counts, e.id))
  }

  /** The handler: sort the events by id, build the count table from the group-by, and attach a count to each event. */
  function Events(events: seq<Event>, regs: seq<Registration>, connected: bool): (r: EventsResponse)
    ensures r.LoadFailed? <==> !connected
    ensures r.Listed? ==> |r.events| == |events|
  {
    if !connected then LoadFailed
    else
      var sorted := SortBy(events, ById);
      var counts := CountMap(GroupByEvent(regs));
      Listed(seq(|sorted|, i requires 0 <= i < |sorted| => Entry(sorted[i], counts)))
  }

  /**
   * A reachable store yields one entry per stored event, in ascending id order
   * and with the same events; each entry's count is the number of registrations
   * for its id (0 when none), and it is fully booked exactly at two or more,
   * whatever the id. An unreachable store gives the error response.
   */
  lemma ListingCountsEveryEvent(events: seq<Event>, regs: seq<Registration>, connected: bool)
    ensures !connected ==> Events(events, regs, connected) == LoadFailed
    ensures connected ==>
      var r := Events(events, regs, connected);
      && r.Listed?
      && r.events == EventsWithCounts(SortBy(events, ById), regs)
      && multiset(EventsOf(r.events)) == multiset(events)
      && (forall i, j :: 0 <= i < j < |r.events| ==> r.events[i].event.id <= r.events[j].event.id)
      && (forall i :: 0 <= i < |r.events| ==>
            && r.events[i].registrationCount == CountFor(regs, r.events[i].event.id)
            && (r.events[i].isFullyBooked <==> r.events[i].registrationCount >= 2))
  {
    if connected {
      var sorted := SortBy(events, ById);
      var r := Events(events, regs, connected);
      forall i | 0 <= i < |sorted|
        ensures r.events[i] == WithCount(sorted[i], CountFor(regs, sorted[i].id))
      {
        CountMapGivesCount(regs, sorted[i].id);
      }
      assert r.events == EventsWithCounts(sorted, regs);
      EventCountsMatchRecords(sorted, regs);
      forall i, j | 0 <= i < j < |r.events| ensures r.events[i].event.id <= r.events[j].event.id {
        assert ById(sorted[i]) <= ById(sorted[j]);
      }
    }
  }

  /**
   * The grouped counts behind the table account for every registration once:
   * one group per registered id, each group's count the number of its
   * registrations, and the counts adding up to the number of registrations.
   */
  lemma GroupedCountsCoverRegistrations(regs: seq<Registration>)
    ensures var gs := GroupByEvent(regs);
      && DistinctGroupIds(gs)
      && (forall g :: g in gs ==> g.count == CountFor(regs, g.id) > 0)
      && (forall r :: r in regs ==> exists g :: g in gs && g.id == r.eventId)
      && SumCounts(gs) == |regs|
  {
    var gs := GroupByEvent(regs);
    var sorted := RegistrationsByEvent(regs);
    RegistrationsByEventAccountsForAll(regs);
    SortKeepsElements(gs, ByCountDescending);
    assert DistinctGroupIds(gs);
    forall r | r in regs ensures exists g :: g in gs && g.id == r.eventId {
      var g :| g in sorted && g.id == r.eventId && r in g.registrations;
      assert g in gs;
    }
    SumOfSorted(gs, ByCountDescending);
  }
}

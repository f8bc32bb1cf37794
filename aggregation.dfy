/**
 * The read side: events joined with their registration counts, registrations
 * grouped by event, and the summary statistics of the admin view.
 */
module Aggregation {
  import opened Wrappers
  import opened Domain
  import opened Admission
  import opened Sorting

  // ------------------------------------------------------ events with counts

  /** An event with its count; it is fully booked at two registrations, exempt ids included. */
  function WithCount(e: Event, count: nat): (r: EventWithRegistrations)
    ensures r.event == e && r.registrationCount == count
    ensures r.isFullyBooked <==> count >= Capacity
  {
    EventWithRegistrations(e, count, count >= Capacity)
  }

  /** Every event, in the given order, with the number of registrations naming it. */
  function EventsWithCounts(events: seq<Event>, regs: seq<Registration>): (r: seq<EventWithRegistrations>)
    ensures |r| == |events|
    ensures forall i :: 0 <= i < |r| ==> r[i] == WithCount(events[i], CountFor(regs, events[i].id))
  {
    seq(|events|, i requires 0 <= i < |events| => WithCount(events[i], CountFor(regs, events[i].id)))
  }

  /** The events a list of counted events carries. */
  function EventsOf(counted: seq<EventWithRegistrations>): (r: seq<Event>)
    ensures |r| == |counted| && forall i :: 0 <= i < |r| ==> r[i] == counted[i].event
  {
    seq(|counted|, i requires 0 <= i < |counted| => counted[i].event)
  }

  /**
   * The counted view is the event list itself plus, for each event, exactly the
   * number of registration records whose event id is that event's id.
   */
  lemma EventCountsMatchRecords(events: seq<Event>, regs: seq<Registration>)
    ensures EventsOf(EventsWithCounts(events, regs)) == events
    ensures forall i :: 0 <= i < |events| ==>
      EventsWithCounts(events, regs)[i].registrationCount == |PositionsFor(regs, events[i].id)|
  {
    forall i | 0 <= i < |events|
      ensures EventsWithCounts(events, regs)[i].registrationCount == |PositionsFor(regs, events[i].id)|
    {
      CountIsNumberOfMatchingRecords(regs, events[i].id);
    }
  }

  // ----------------------------------------------------------------- groups

  /** The registrations of one event, with their number. */
  datatype Group = Group(id: EventId, count: nat, registrations: seq<Registration>)

  /** The registrations for `id`, in list order. */
  function RegistrationsFor(regs: seq<Registration>, id: EventId): (r: seq<Registration>)
    ensures |r| == CountFor(regs, id)
    ensures forall x :: x in r <==> x in regs && x.eventId == id
  {
    if regs == [] then []
    else
      var front := regs[..|regs| - 1];
      var last := regs[|regs| - 1];
      assert regs == front + [last];
      RegistrationsFor(front, id) + (if last.eventId == id then [last] else [])
  }

  /** The group for one id. */
  function GroupFor(regs: seq<Registration>, id: EventId): (g: Group)
    ensures g.id == id && g.count == |g.registrations| == CountFor(regs, id)
    ensures forall x :: x in g.registrations <==> x in regs && x.eventId == id
  {
    Group(id, CountFor(regs, id), RegistrationsFor(regs, id))
  }

  /** One group per id, in the order of `ids`. */
  function GroupsFor(ids: seq<EventId>, regs: seq<Registration>): (r: seq<Group>)
    ensures |r| == |ids| && forall i :: 0 <= i < |ids| ==> r[i] == GroupFor(regs, ids[i])
  {
    if ids == [] then [] else [GroupFor(regs, ids[0])] + GroupsFor(ids[1..], regs)
  }

  /** The groups that hold at least one registration. */
  function NonEmpty(gs: seq<Group>): (r: seq<Group>)
    ensures forall g :: g in r <==> g in gs && g.count > 0
  {
    if gs == [] then [] else (if gs[0].count > 0 then [gs[0]] else []) + NonEmpty(gs[1..])
  }

  /** The ids of the events, in order. */
  function IdsOf(events: seq<Event>): (r: seq<EventId>)
    ensures |r| == |events| && forall i :: 0 <= i < |events| ==> r[i] == events[i].id
  {
    seq(|events|, i requires 0 <= i < |events| => events[i].id)
  }

  /** The per-event breakdown of the in-memory store: in event order, only events with registrations. */
  function EventGroups(events: seq<Event>, regs: seq<Registration>): (r: seq<Group>)
    ensures forall g :: g in r ==> g == GroupFor(regs, g.id) && g.count > 0 && HasEvent(events, g.id)
    ensures forall i :: 0 <= i < |events| && CountFor(regs, events[i].id) > 0 ==> GroupFor(regs, events[i].id) in r
  {
    var all := GroupsFor(IdsOf(events), regs);
    assert forall g :: g in all ==> exists i :: 0 <= i < |events| && g == GroupFor(regs, events[i].id) by {
      forall g | g in all ensures exists i :: 0 <= i < |events| && g == GroupFor(regs, events[i].id) {
        var k :| 0 <= k < |all| && all[k] == g;
        assert g == GroupFor(regs, events[k].id);
      }
    }
    assert forall i :: 0 <= i < |events| ==> GroupFor(regs, events[i].id) == all[i];
    NonEmpty(all)
  }

  /** The event ids occurring among the registrations. */
  function RegisteredEventIds(regs: seq<Registration>): set<EventId> {
    set r | r in regs :: r.eventId
  }

  /** No id occurs twice. */
  ghost predicate Distinct(ids: seq<EventId>) {
    forall i, j :: 0 <= i < j < |ids| ==> ids[i] != ids[j]
  }

  /** The registered event ids in order of first appearance (the `_id` keys of a group-by). */
  function DistinctIds(regs: seq<Registration>): (r: seq<EventId>)
    ensures Distinct(r)
    ensures forall x :: x in r <==> x in RegisteredEventIds(regs)
  {
    if regs == [] then []
    else
      var front := regs[..|regs| - 1];
      var last := regs[|regs| - 1];
      assert regs == front + [last];
      var d := DistinctIds(front);
      if last.eventId in d then d else d + [last.eventId]
  }

  /** The store's group-by on `eventId`: one group per registered event, with its count and its registrations. */
  function GroupByEvent(regs: seq<Registration>): (r: seq<Group>)
    ensures forall g :: g in r ==> g == GroupFor(regs, g.id) && g.count > 0
    ensures forall x :: x in regs ==> GroupFor(regs, x.eventId) in r
  {
    var ids := DistinctIds(regs);
    var gs := GroupsFor(ids, regs);
    assert forall g :: g in gs ==> g == GroupFor(regs, g.id) && g.count > 0 by {
      forall g | g in gs ensures g == GroupFor(regs, g.id) && g.count > 0 {
        var k :| 0 <= k < |gs| && gs[k] == g;
        CountPositiveIffRegistered(regs, ids[k]);
      }
    }
    assert forall x :: x in regs ==> GroupFor(regs, x.eventId) in gs by {
      forall x | x in regs ensures GroupFor(regs, x.eventId) in gs {
        assert x.eventId in RegisteredEventIds(regs);
        var k :| 0 <= k < |ids| && ids[k] == x.eventId;
        assert gs[k] == GroupFor(regs, x.eventId);
      }
    }
    gs
  }

  /** Sort key putting larger counts first. */
  function ByCountDescending(g: Group): real {
    -(g.count as real)
  }

  /** The group-by followed by the sort on count, largest first. */
  function RegistrationsByEvent(regs: seq<Registration>): (r: seq<Group>)
    ensures multiset(r) == multiset(GroupByEvent(regs))
    ensures forall i, j :: 0 <= i < j < |r| ==> r[i].count >= r[j].count
  {
    var sorted := SortBy(GroupByEvent(regs), ByCountDescending);
    assert forall i, j :: 0 <= i < j < |sorted| ==> sorted[i].count >= sorted[j].count by {
      forall i, j | 0 <= i < j < |sorted| ensures sorted[i].count >= sorted[j].count {
        assert ByCountDescending(sorted[i]) <= ByCountDescending(sorted[j]);
      }
    }
    sorted
  }

  /** The counts added up. */
  function SumCounts(gs: seq<Group>): nat {
    if gs == [] then 0 else gs[0].count + SumCounts(gs[1..])
  }

  /** The counts of `regs` for each id of `ids`, added up. */
  function CountsOver(ids: seq<EventId>, regs: seq<Registration>): nat {
    if ids == [] then 0 else CountFor(regs, ids[0]) + CountsOver(ids[1..], regs)
  }

  /** How often `x` occurs in `ids`. */
  function Occurrences(ids: seq<EventId>, x: EventId): nat {
    if ids == [] then 0 else (if ids[0] == x then 1 else 0) + Occurrences(ids[1..], x)
  }

  lemma {:induction false} OccurrencesOfDistinct(ids: seq<EventId>, x: EventId)
    requires Distinct(ids)
    ensures Occurrences(ids, x) == if x in ids then 1 else 0
  {
    if ids != [] {
      OccurrencesOfDistinct(ids[1..], x);
      if ids[0] == x {
        assert x !in ids[1..] by {
          forall k | 0 <= k < |ids[1..]| ensures ids[1..][k] != x { assert ids[1..][k] == ids[k + 1]; }
        }
      } else {
        assert x in ids <==> x in ids[1..] by { assert ids == [ids[0]] + ids[1..]; }
      }
    }
  }

  lemma {:induction false} CountsOverAppend(ids: seq<EventId>, regs: seq<Registration>, r: Registration)
    ensures CountsOver(ids, regs + [r]) == CountsOver(ids, regs) + Occurrences(ids, r.eventId)
  {
    if ids != [] {
      CountAppend(regs, r, ids[0]);
      CountsOverAppend(ids[1..], regs, r);
    }
  }

  /** Counting over distinct ids that cover every registration counts each registration exactly once. */
  lemma {:induction false} CountsOverCoverAll(ids: seq<EventId>, regs: seq<Registration>)
    requires Distinct(ids)
    requires forall r :: r in regs ==> r.eventId in ids
    ensures CountsOver(ids, regs) == |regs|
  {
    if regs == [] {
      CountsOverOfNothing(ids);
    } else {
      var front := regs[..|regs| - 1];
      var last := regs[|regs| - 1];
      assert regs == front + [last];
      CountsOverCoverAll(ids, front);
      CountsOverAppend(ids, front, last);
      OccurrencesOfDistinct(ids, last.eventId);
    }
  }

  lemma {:induction false} CountsOverOfNothing(ids: seq<EventId>)
    ensures CountsOver(ids, []) == 0
  {
    if ids != [] { CountsOverOfNothing(ids[1..]); }
  }

  lemma {:induction false} SumOfGroupsFor(ids: seq<EventId>, regs: seq<Registration>)
    ensures SumCounts(GroupsFor(ids, regs)) == CountsOver(ids, regs)
  {
    if ids != [] {
      SumOfGroupsFor(ids[1..], regs);
      assert GroupsFor(ids, regs)[1..] == GroupsFor(ids[1..], regs);
    }
  }

  lemma {:induction false} SumOfNonEmpty(gs: seq<Group>)
    ensures SumCounts(NonEmpty(gs)) == SumCounts(gs)
  {
    if gs != [] {
      SumOfNonEmpty(gs[1..]);
      if gs[0].count > 0 {
        assert NonEmpty(gs) == [gs[0]] + NonEmpty(gs[1..]);
        assert NonEmpty(gs)[1..] == NonEmpty(gs[1..]);
      } else {
        assert NonEmpty(gs) == NonEmpty(gs[1..]);
      }
    }
  }

  lemma {:induction false} SumOfInsert(x: Group, s: seq<Group>, key: Group -> real)
    ensures SumCounts(InsertBy(x, s, key)) == x.count + SumCounts(s)
  {
    if s != [] && key(x) > key(s[0]) {
      SumOfInsert(x, s[1..], key);
      assert InsertBy(x, s, key)[1..] == InsertBy(x, s[1..], key);
    } else {
      assert InsertBy(x, s, key)[1..] == s;
    }
  }

  /** Reordering groups does not change the total. */
  lemma {:induction false} SumOfSorted(gs: seq<Group>, key: Group -> real)
    ensures SumCounts(SortBy(gs, key)) == SumCounts(gs)
  {
    if gs != [] {
      SumOfSorted(gs[1..], key);
      SumOfInsert(gs[0], SortBy(gs[1..], key), key);
    }
  }

  /** No two groups share an id. */
  ghost predicate DistinctGroupIds(gs: seq<Group>) {
    forall i, j :: 0 <= i < j < |gs| ==> gs[i].id != gs[j].id
  }

  lemma TailKeepsDistinct(s: seq<Group>)
    requires s != [] && DistinctGroupIds(s)
    ensures DistinctGroupIds(s[1..])
  {
    forall i, j | 0 <= i < j < |s[1..]| ensures s[1..][i].id != s[1..][j].id {
      assert s[1..][i] == s[i + 1] && s[1..][j] == s[j + 1];
    }
  }

  lemma ConsKeepsDistinct(a: Group, t: seq<Group>)
    requires DistinctGroupIds(t) && forall y :: y in t ==> y.id != a.id
    ensures DistinctGroupIds([a] + t)
  {
    var r := [a] + t;
    forall i, j | 0 <= i < j < |r| ensures r[i].id != r[j].id {
      if i == 0 { assert r[j] in t; } else { assert r[i] == t[i - 1] && r[j] == t[j - 1]; }
    }
  }

  lemma InsertMembers(x: Group, s: seq<Group>, key: Group -> real)
    ensures forall y :: y in InsertBy(x, s, key) <==> y == x || y in s
  {
    var r := InsertBy(x, s, key);
    assert multiset(r) == multiset(s) + multiset{x};
    forall y ensures y in r <==> y == x || y in s {
      assert y in r <==> y in multiset(r);
      assert y in s <==> y in multiset(s);
    }
  }

  lemma {:induction false} InsertKeepsDistinct(x: Group, s: seq<Group>, key: Group -> real)
    requires DistinctGroupIds(s) && forall y :: y in s ==> y.id != x.id
    ensures DistinctGroupIds(InsertBy(x, s, key))
  {
    if s != [] && key(x) > key(s[0]) {
      TailKeepsDistinct(s);
      InsertKeepsDistinct(x, s[1..], key);
      var tail := InsertBy(x, s[1..], key);
      InsertMembers(x, s[1..], key);
      forall y | y in tail ensures y.id != s[0].id {
        if y != x {
          var k :| 0 <= k < |s[1..]| && s[1..][k] == y;
          assert s[k + 1] == y;
        }
      }
      ConsKeepsDistinct(s[0], tail);
    } else {
      ConsKeepsDistinct(x, s);
    }
  }

  lemma {:induction false} SortKeepsDistinct(gs: seq<Group>, key: Group -> real)
    requires DistinctGroupIds(gs)
    ensures DistinctGroupIds(SortBy(gs, key))
  {
    if gs != [] {
      TailKeepsDistinct(gs);
      SortKeepsDistinct(gs[1..], key);
      var rest := SortBy(gs[1..], key);
      SortKeepsElements(gs[1..], key);
      forall y | y in rest ensures y.id != gs[0].id {
        var k :| 0 <= k < |gs[1..]| && gs[1..][k] == y;
        assert gs[k + 1] == y;
      }
      InsertKeepsDistinct(gs[0], rest, key);
    }
  }

  /**
   * The breakdown by event accounts for every registration exactly once: the
   * ids are distinct and are exactly the registered event ids, each group's
   * count is the length of its list and the number of registrations for its id,
   * the counts add up to the number of registrations, and the groups come
   * largest count first.
   */
  lemma RegistrationsByEventAccountsForAll(regs: seq<Registration>)
    ensures var gs := RegistrationsByEvent(regs);
      && SortedBy(gs, ByCountDescending)
      && (forall i, j :: 0 <= i < j < |gs| ==> gs[i].count >= gs[j].count)
      && DistinctGroupIds(gs)
      && (forall g :: g in gs ==> g == GroupFor(regs, g.id) && g.count > 0 && g.count == |g.registrations|)
      && (forall r :: r in regs <==> exists g :: g in gs && g.id == r.eventId && r in g.registrations)
      && SumCounts(gs) == |regs|
  {
    var ids := DistinctIds(regs);
    var unsorted := GroupByEvent(regs);
    var gs := RegistrationsByEvent(regs);
    SortKeepsElements(unsorted, ByCountDescending);
    assert DistinctGroupIds(unsorted);
    SortKeepsDistinct(unsorted, ByCountDescending);
    forall i, j | 0 <= i < j < |gs| ensures gs[i].count >= gs[j].count {
      assert ByCountDescending(gs[i]) <= ByCountDescending(gs[j]);
    }
    forall g | g in gs ensures g == GroupFor(regs, g.id) && g.count > 0 {
      var k :| 0 <= k < |unsorted| && unsorted[k] == g;
      assert ids[k] in RegisteredEventIds(regs);
      var r :| r in regs && r.eventId == ids[k];
      assert r in g.registrations;
    }
    forall r | r in regs ensures exists g :: g in gs && g.id == r.eventId && r in g.registrations {
      assert r.eventId in RegisteredEventIds(regs);
      var k :| 0 <= k < |ids| && ids[k] == r.eventId;
      assert unsorted[k] in gs;
    }
    SumOfSorted(unsorted, ByCountDescending);
    SumOfGroupsFor(ids, regs);
    forall r | r in regs ensures r.eventId in ids { assert r.eventId in RegisteredEventIds(regs); }
    CountsOverCoverAll(ids, regs);
  }

  // ------------------------------------------------------------- count map

  /** A lookup table from id to count, filled group by group; a later group for the same id overwrites an earlier one. */
  function CountMap(gs: seq<Group>): (m: map<EventId, nat>)
    ensures forall id :: id in m <==> exists i :: 0 <= i < |gs| && gs[i].id == id
  {
    if gs == [] then map[]
    else
      var front := gs[..|gs| - 1];
      var last := gs[|gs| - 1];
      var m := CountMap(front);
      assert forall i :: 0 <= i < |front| ==> front[i] == gs[i];
      m[last.id := last.count]
  }

  /** `countMap.get(id) || 0`. */
  function CountOrZero(m: map<EventId, nat>, id: EventId): nat {
    if id in m then m[id] else 0
  }

  lemma {:induction false} CountMapOfDistinct(gs: seq<Group>, k: nat)
    requires DistinctGroupIds(gs) && k < |gs|
    ensures CountMap(gs)[gs[k].id] == gs[k].count
  {
    var front := gs[..|gs| - 1];
    if k < |gs| - 1 {
      assert DistinctGroupIds(front);
      assert front[k] == gs[k];
      CountMapOfDistinct(front, k);
    }
  }

  /** Looking an id up in the table built from the group-by yields its registration count, and 0 for an id without registrations. */
  lemma CountMapGivesCount(regs: seq<Registration>, id: EventId)
    ensures CountOrZero(CountMap(GroupByEvent(regs)), id) == CountFor(regs, id)
  {
    var gs := GroupByEvent(regs);
    var ids := DistinctIds(regs);
    CountPositiveIffRegistered(regs, id);
    if id in ids {
      var k :| 0 <= k < |ids| && ids[k] == id;
      assert DistinctGroupIds(gs);
      CountMapOfDistinct(gs, k);
    } else {
      assert id !in CountMap(gs);
    }
  }

  /** An id has registrations exactly when some registration names it. */
  lemma {:induction false} CountPositiveIffRegistered(regs: seq<Registration>, id: EventId)
    ensures CountFor(regs, id) > 0 <==> id in RegisteredEventIds(regs)
  {
    if regs != [] {
      var front := regs[..|regs| - 1];
      var last := regs[|regs| - 1];
      assert regs == front + [last];
      CountPositiveIffRegistered(front, id);
      assert RegisteredEventIds(regs) == RegisteredEventIds(front) + {last.eventId};
    }
  }

  // ------------------------------------------------------------- statistics

  datatype Statistics = Statistics(
    totalRegistrations: nat,
    totalEvents: nat,
    eventsWithRegistrations: nat,
    eventsWithoutRegistrations: int,
    averageRegistrationsPerEvent: real)

  /** Registrations per event; 0 when there are no events instead of a division. */
  function Average(total: nat, events: nat): (a: real)
    ensures events == 0 ==> a == 0.0
    ensures events > 0 ==> a * events as real == total as real
  {
    if events > 0 then total as real / events as real else 0.0
  }

  /** The summary counts over an event list and a registration list. */
  function StatisticsOf(events: seq<Event>, regs: seq<Registration>): (r: Statistics)
    ensures r.totalRegistrations == |regs| && r.totalEvents == |events|
    ensures r.eventsWithRegistrations + r.eventsWithoutRegistrations == r.totalEvents
    ensures r.eventsWithRegistrations == |RegisteredEventIds(regs)|
    ensures r.totalEvents == 0 ==> r.averageRegistrationsPerEvent == 0.0
  {
    var withRegistrations := |RegisteredEventIds(regs)|;
    Statistics(|regs|, |events|, withRegistrations, |events| - withRegistrations, Average(|regs|, |events|))
  }

  /** The events without registrations, in order. */
  function IdleEvents(events: seq<Event>, regs: seq<Registration>): (r: seq<Event>)
    ensures |r| <= |events|
    ensures forall e :: e in r <==> e in events && CountFor(regs, e.id) == 0
  {
    if events == [] then []
    else (if CountFor(regs, events[0].id) == 0 then [events[0]] else []) + IdleEvents(events[1..], regs)
  }

  /** The ids of the events that have registrations. */
  ghost function BookedIds(events: seq<Event>, regs: seq<Registration>): set<EventId> {
    set i | 0 <= i < |events| && CountFor(regs, events[i].id) > 0 :: events[i].id
  }

  lemma UniqueTail(events: seq<Event>)
    requires events != [] && UniqueEventIds(events)
    ensures UniqueEventIds(events[1..])
    ensures forall e :: e in events[1..] ==> e.id != events[0].id
  {
    var tail := events[1..];
    forall i, j | 0 <= i < j < |tail| ensures tail[i].id != tail[j].id {
      assert tail[i] == events[i + 1] && tail[j] == events[j + 1];
    }
    forall e | e in tail ensures e.id != events[0].id {
      var i :| 0 <= i < |tail| && tail[i] == e;
      assert events[i + 1] == e;
    }
  }

  lemma EventGroupsCons(events: seq<Event>, regs: seq<Registration>)
    requires events != []
    ensures var head := GroupFor(regs, events[0].id);
      EventGroups(events, regs) == (if head.count > 0 then [head] else []) + EventGroups(events[1..], regs)
  {
    assert IdsOf(events)[1..] == IdsOf(events[1..]);
    assert GroupsFor(IdsOf(events), regs)[1..] == GroupsFor(IdsOf(events[1..]), regs);
  }

  lemma BookedIdsCons(events: seq<Event>, regs: seq<Registration>)
    requires events != []
    ensures BookedIds(events, regs)
      == (if CountFor(regs, events[0].id) > 0 then {events[0].id} else {}) + BookedIds(events[1..], regs)
  {
    var tail := events[1..];
    forall x | x in BookedIds(events, regs)
      ensures x in (if CountFor(regs, events[0].id) > 0 then {events[0].id} else {}) + BookedIds(tail, regs)
    {
      var i :| 0 <= i < |events| && CountFor(regs, events[i].id) > 0 && events[i].id == x;
      if i > 0 { assert tail[i - 1] == events[i]; }
    }
    forall x | x in BookedIds(tail, regs) ensures x in BookedIds(events, regs) {
      var i :| 0 <= i < |tail| && CountFor(regs, tail[i].id) > 0 && tail[i].id == x;
      assert events[i + 1] == tail[i];
    }
  }

  /** With unique ids, the breakdown has one group per event that has registrations. */
  lemma {:induction false} GroupsAreBookedEvents(events: seq<Event>, regs: seq<Registration>)
    requires UniqueEventIds(events)
    ensures |EventGroups(events, regs)| == |BookedIds(events, regs)|
  {
    if events != [] {
      UniqueTail(events);
      GroupsAreBookedEvents(events[1..], regs);
      EventGroupsCons(events, regs);
      BookedIdsCons(events, regs);
      assert events[0].id !in BookedIds(events[1..], regs);
    }
  }

  /**
   * Every event is either in the breakdown or idle, never both, and the
   * breakdown and the idle events together number the events.
   */
  lemma {:induction false} GroupsAndIdlePartition(events: seq<Event>, regs: seq<Registration>)
    ensures forall e :: e in events ==>
      ((exists g :: g in EventGroups(events, regs) && g.id == e.id) <==> e !in IdleEvents(events, regs))
    ensures |EventGroups(events, regs)| + |IdleEvents(events, regs)| == |events|
  {
    forall e | e in events
      ensures (exists g :: g in EventGroups(events, regs) && g.id == e.id) <==> e !in IdleEvents(events, regs)
    {
      var i :| 0 <= i < |events| && events[i] == e;
      if CountFor(regs, e.id) > 0 {
        assert GroupFor(regs, events[i].id) in EventGroups(events, regs);
      }
    }
    if events != [] {
      GroupsAndIdlePartition(events[1..], regs);
      EventGroupsCons(events, regs);
    }
  }

  /**
   * With unique event ids and every registration naming a known event, the
   * statistics account exactly: the events with registrations are the groups of
   * the breakdown, the events without registrations are the idle events (so the
   * difference is never negative), and the breakdown's counts add up to the
   * number of registrations.
   */
  lemma StatisticsAccountForEveryEvent(events: seq<Event>, regs: seq<Registration>)
    requires UniqueEventIds(events) && ReferencesKnownEvents(events, regs)
    ensures var s := StatisticsOf(events, regs);
      && s.totalRegistrations == |regs| == SumCounts(EventGroups(events, regs))
      && s.eventsWithRegistrations == |EventGroups(events, regs)|
      && s.eventsWithoutRegistrations == |IdleEvents(events, regs)| >= 0
  {
    GroupsAreBookedEvents(events, regs);
    GroupsAndIdlePartition(events, regs);
    assert BookedIds(events, regs) == RegisteredEventIds(regs) by {
      forall x | x in RegisteredEventIds(regs) ensures x in BookedIds(events, regs) {
        var r :| r in regs && r.eventId == x;
        var i :| 0 <= i < |regs| && regs[i] == r;
        assert HasEvent(events, regs[i].eventId);
        var k :| 0 <= k < |events| && events[k].id == x;
        CountPositiveIffRegistered(regs, x);
      }
      forall x | x in BookedIds(events, regs) ensures x in RegisteredEventIds(regs) {
        CountPositiveIffRegistered(regs, x);
      }
    }
    var ids := IdsOf(events);
    SumOfNonEmpty(GroupsFor(ids, regs));
    SumOfGroupsFor(ids, regs);
    forall r | r in regs ensures r.eventId in ids {
      var i :| 0 <= i < |regs| && regs[i] == r;
      assert HasEvent(events, regs[i].eventId);
      var k :| 0 <= k < |events| && events[k].id == r.eventId;
      assert ids[k] == r.eventId;
    }
    CountsOverCoverAll(ids, regs);
  }

  // ------------------------------------------------------------ event join

  /** The lookup table built by setting each event under its id in list order, so a later event wins. */
  function EventMap(events: seq<Event>): (m: map<EventId, Event>)
    ensures forall id :: id in m <==> HasEvent(events, id)
    ensures forall id :: id in m ==> m[id].id == id && m[id] in events
  {
    if events == [] then map[]
    else
      var front := events[..|events| - 1];
      var last := events[|events| - 1];
      assert events == front + [last];
      EventMap(front)[last.id := last]
  }

  /**
   * Each id maps to the last event carrying it: an event that no later event
   * shares its id with is the one the table returns for that id.
   */
  lemma {:induction false} EventMapLastWins(events: seq<Event>, i: nat)
    requires i < |events|
    requires forall j :: i < j < |events| ==> events[j].id != events[i].id
    ensures events[i].id in EventMap(events) && EventMap(events)[events[i].id] == events[i]
  {
    var front := events[..|events| - 1];
    if i < |events| - 1 {
      EventMapLastWins(front, i);
    }
  }

  /** With unique ids the table returns the one event that `find` would return. */
  lemma EventMapAgreesWithFind(events: seq<Event>, id: EventId)
    requires UniqueEventIds(events)
    ensures id in EventMap(events) ==> FindEvent(events, id) == Some(EventMap(events)[id])
    ensures id !in EventMap(events) ==> FindEvent(events, id) == None
  {
    var m := EventMap(events);
    if id in m {
      var k :| 0 <= k < |events| && events[k] == m[id];
      FoundEventIsTheOne(events, id, k);
    }
  }

  /** A registration listed with the summary of its event, or with none when the id is unknown. */
  datatype Joined = Joined(registration: Registration, event: Option<EventSummary>)

  /** Every registration, in order, with its event's summary looked up in `m`. */
  function JoinEvents(regs: seq<Registration>, m: map<EventId, Event>): (r: seq<Joined>)
    ensures |r| == |regs|
    ensures forall i :: 0 <= i < |r| ==> r[i].registration == regs[i]
    ensures forall i :: 0 <= i < |r| ==> (r[i].event.Some? <==> regs[i].eventId in m)
  {
    seq(|regs|, i requires 0 <= i < |regs| =>
      Joined(regs[i], if regs[i].eventId in m then Some(Summary(m[regs[i].eventId])) else None))
  }

  /**
   * Joining against the event table attaches to each registration the summary
   * of the event it names, and attaches nothing exactly when no event has that id.
   */
  lemma JoinAttachesOwnEvent(events: seq<Event>, regs: seq<Registration>)
    requires UniqueEventIds(events)
    ensures var joined := JoinEvents(regs, EventMap(events));
      forall i :: 0 <= i < |regs| ==>
        && (joined[i].event == None <==> !HasEvent(events, regs[i].eventId))
        && (joined[i].event.Some? ==>
              joined[i].event.value.id == regs[i].eventId
              && Some(joined[i].event.value) == (match FindEvent(events, regs[i].eventId)
                                                 case Some(e) => Some(Summary(e))
                                                 case None => None))
  {
    forall i | 0 <= i < |regs| {
      EventMapAgreesWithFind(events, regs[i].eventId);
    }
  }
}

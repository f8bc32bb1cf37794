/**
 * The records the application stores and returns: a graduation event, a
 * registration of one participant for one event, and the derived event view
 * carrying a registration count.
 */
module Domain {
  /** Event identifiers are JavaScript numbers; nothing forces them to be integers. */
  type EventId = real

  /** The organisational e-mail domain every registrant must belong to. */
  const DomainSuffix: string := "@schools.nyc.gov"

  /** Registrations allowed per event unless the event is exempt. */
  const Capacity: nat := 2

  datatype Event = Event(
    id: EventId,
    schoolNumber: string,
    principal: string,
    date: string,
    time: string,
    location: string,
    address: string,
    ceremonyType: string,
    title: string,
    year: string,
    rawText: string,
    extractedAt: string)

  /** A stored registration; `registeredAt` is an opaque timestamp. */
  datatype Registration = Registration(
    id: string,
    eventId: EventId,
    email: string,
    name: string,
    registeredAt: nat)

  /** An event together with its registration count and the fully-booked flag. */
  datatype EventWithRegistrations = EventWithRegistrations(
    event: Event,
    registrationCount: nat,
    isFullyBooked: bool)

  /** The seven event fields attached to a registration when listing registrations. */
  datatype EventSummary = EventSummary(
    id: EventId,
    schoolNumber: string,
    principal: string,
    date: string,
    time: string,
    location: string,
    title: string)

  function Summary(e: Event): EventSummary {
    EventSummary(e.id, e.schoolNumber, e.principal, e.date, e.time, e.location, e.title)
  }

  /** At most one event per id (the unique index on `id`). */
  ghost predicate UniqueEventIds(events: seq<Event>) {
    forall i, j :: 0 <= i < j < |events| ==> events[i].id != events[j].id
  }

  /** Some event carries the id. */
  ghost predicate HasEvent(events: seq<Event>, id: EventId) {
    exists k :: 0 <= k < |events| && events[k].id == id
  }
}

/**
 * The application root: the seeded event list and the event-registration
 * transition, which appends a registration record and takes one spot off every
 * event carrying the registered id.
 */
module App {
  import opened Wrappers
  import opened JsStrings
  import opened Entities

  /** The four events the app starts with. */
  const SeedEvents: seq<Event> := [
    Event(1, Lit("Tennis Beginner Class"), Tennis, Lit("2024-08-15"), Lit("10:00 AM"),
          Lit("Court 1"), 8, 10, Lit("Perfect for beginners looking to learn tennis basics")),
    Event(2, Lit("Badminton Tournament"), Badminton, Lit("2024-08-18"), Lit("2:00 PM"),
          Lit("Indoor Court A"), 4, 16, Lit("Monthly tournament for all skill levels")),
    Event(3, Lit("Weight Lifting Workshop"), Weightlifting, Lit("2024-08-20"), Lit("6:00 PM"),
          Lit("Gym Floor"), 12, 15, Lit("Learn proper form and technique")),
    Event(4, Lit("Pickleball Social Hour"), Pickleball, Lit("2024-08-22"), Lit("7:00 PM"),
          Lit("Court 2"), 6, 12, Lit("Casual games and socializing"))
  ]

  /** No two events share an id. */
  predicate DistinctIds(events: seq<Event>) {
    forall i, j :: 0 <= i < j < |events| ==> events[i].id != events[j].id
  }

  /** The seeded events have the ids 1 to 4 in order, and each has between 0 and its maximum spots free. */
  lemma SeedEventsWellFormed()
    ensures |SeedEvents| == 4 && DistinctIds(SeedEvents)
    ensures forall i :: 0 <= i < 4 ==> SeedEvents[i].id == i + 1
    ensures forall i :: 0 <= i < 4 ==> 0 <= SeedEvents[i].availableSpots <= SeedEvents[i].maxSpots
  {
  }

  /** One event after a registration for `eventId`: a spot fewer if it is that event, else as it was. */
  function Booked(event: Event, eventId: int): (e: Event)
    ensures e.(availableSpots := event.availableSpots) == event
    ensures e.availableSpots == event.availableSpots - (if event.id == eventId then 1 else 0)
  {
    if event.id == eventId then event.(availableSpots := event.availableSpots - 1) else event
  }

  /**
   * `events.map(...)` of handleEventRegistration: the list keeps its length and
   * order, every event with the id loses exactly one spot (with no floor at zero),
   * and every other field and every other event is unchanged.
   */
  function DecrementSpots(events: seq<Event>, eventId: int): (r: seq<Event>)
    ensures |r| == |events|
    ensures forall i :: 0 <= i < |events| ==> r[i].(availableSpots := events[i].availableSpots) == events[i]
    ensures forall i :: 0 <= i < |events| ==>
      r[i].availableSpots == events[i].availableSpots - (if events[i].id == eventId then 1 else 0)
  {
    if events == [] then [] else [Booked(events[0], eventId)] + DecrementSpots(events[1..], eventId)
  }

  /** An id no event carries leaves the list exactly as it was. */
  lemma DecrementUnknownId(events: seq<Event>, eventId: int)
    requires forall i :: 0 <= i < |events| ==> events[i].id != eventId
    ensures DecrementSpots(events, eventId) == events
  {
    var r := DecrementSpots(events, eventId);
    forall i | 0 <= i < |events| ensures r[i] == events[i] {
      assert r[i].(availableSpots := events[i].availableSpots) == events[i];
    }
  }

  /** The free spots over all events. */
  function TotalSpots(events: seq<Event>): int {
    if events == [] then 0 else events[0].availableSpots + TotalSpots(events[1..])
  }

  /** The number of events that carry the id. */
  function CountId(events: seq<Event>, eventId: int): (n: nat)
    ensures n <= |events|
  {
    if events == [] then 0 else (if events[0].id == eventId then 1 else 0) + CountId(events[1..], eventId)
  }

  /** A registration takes exactly as many spots, in total, as there are events with that id. */
  lemma {:induction false} DecrementTotal(events: seq<Event>, eventId: int)
    ensures TotalSpots(DecrementSpots(events, eventId)) == TotalSpots(events) - CountId(events, eventId)
  {
    if events != [] {
      var r := DecrementSpots(events, eventId);
      assert r[1..] == DecrementSpots(events[1..], eventId);
      DecrementTotal(events[1..], eventId);
    }
  }

  /** With distinct ids, an id that occurs is carried by exactly one event. */
  lemma {:induction false} CountDistinct(events: seq<Event>, k: nat)
    requires DistinctIds(events) && k < |events|
    ensures CountId(events, events[k].id) == 1
  {
    var id := events[k].id;
    assert DistinctIds(events[1..]) by {
      forall i, j | 0 <= i < j < |events| - 1 ensures events[1..][i].id != events[1..][j].id {
        assert events[1..][i] == events[i + 1] && events[1..][j] == events[j + 1];
      }
    }
    if k == 0 {
      CountAbsent(events[1..], id);
    } else {
      assert events[0].id != id;
      assert events[1..][k - 1] == events[k];
      CountDistinct(events[1..], k - 1);
    }
  }

  lemma {:induction false} CountAbsent(events: seq<Event>, eventId: int)
    requires forall i :: 0 <= i < |events| ==> events[i].id != eventId
    ensures CountId(events, eventId) == 0
  {
    if events != [] {
      CountAbsent(events[1..], eventId);
    }
  }

  /**
   * With distinct ids, registering for an event that exists takes one spot in
   * total; the event goes from 0 free spots to -1 as readily as from 1 to 0.
   */
  lemma RegistrationTakesOneSpot(events: seq<Event>, k: nat)
    requires DistinctIds(events) && k < |events|
    ensures TotalSpots(DecrementSpots(events, events[k].id)) == TotalSpots(events) - 1
    ensures DecrementSpots(events, events[k].id)[k].availableSpots == events[k].availableSpots - 1
  {
    DecrementTotal(events, events[k].id);
    CountDistinct(events, k);
  }

  /** No event has fewer than zero free spots. */
  predicate NoNegativeSpots(events: seq<Event>) {
    forall i :: 0 <= i < |events| ==> events[i].availableSpots >= 0
  }

  /**
   * With distinct ids, a registration for a listed event that is not fully
   * booked (the only kind the event cards let through) leaves no event with
   * fewer than zero free spots.
   */
  lemma GatedRegistrationKeepsSpots(events: seq<Event>, k: nat)
    requires DistinctIds(events) && NoNegativeSpots(events)
    requires k < |events| && events[k].availableSpots != 0
    ensures NoNegativeSpots(DecrementSpots(events, events[k].id))
  {
    var r := DecrementSpots(events, events[k].id);
    forall i | 0 <= i < |r| ensures r[i].availableSpots >= 0 {
      if i != k {
        assert events[i].id != events[k].id;
      }
    }
  }

  /** Ids are never changed, so distinct ids stay distinct. */
  lemma DecrementKeepsIds(events: seq<Event>, eventId: int)
    requires DistinctIds(events)
    ensures DistinctIds(DecrementSpots(events, eventId))
  {
    var r := DecrementSpots(events, eventId);
    forall i | 0 <= i < |r| ensures r[i].id == events[i].id {
      assert r[i].(availableSpots := events[i].availableSpots) == events[i];
    }
  }

  /**
   * Nothing stops overbooking: the badminton tournament has 4 free spots, and
   * five registrations for it leave -1.
   */
  lemma NoFloorAtZero()
    ensures var e := DecrementSpots(DecrementSpots(DecrementSpots(DecrementSpots(
                       DecrementSpots(SeedEvents, 2), 2), 2), 2), 2);
      e[1].availableSpots == -1
  {
  }

  /** The state App keeps: the event list and the registrations made so far. */
  class AppState {
    var events: seq<Event>
    var registrations: seq<Registration>

    constructor ()
      ensures events == SeedEvents && registrations == []
    {
      events := SeedEvents;
      registrations := [];
    }

    /**
     * handleEventRegistration. The record `{ eventId, ...registrationData }`
     * is appended (the sign-up form carries no user id), with no check for a
     * repeated registration, and both lists are replaced wholesale.
     */
    method HandleEventRegistration(eventId: int, registrationData: SignupData)
      modifies this
      ensures registrations == old(registrations) + [Registration(eventId, None, registrationData)]
      ensures events == DecrementSpots(old(events), eventId)
    {
      registrations := registrations + [Registration(eventId, None, registrationData)];
      events := DecrementSpots(events, eventId);
    }
  }
}

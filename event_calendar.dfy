/**
 * The events page: a sport filter over the event list, and the sign-up flow
 * that remembers the clicked event, shows the form, and hands a submitted
 * form to the application's registration handler.
 */
module EventCalendar {
  import opened Wrappers
  import opened JsStrings
  import opened Entities
  import opened Sequences
  import opened App
  import opened EventCard

  const All: JsString := Lit("all")

  /** The test `event => event.sport === selectedSport`. */
  function HasSport(sport: JsString): Event -> bool {
    (e: Event) => e.sport == sport
  }

  /** filteredEvents: every event for "all", otherwise `events.filter(...)` by sport. */
  function FilteredEvents(events: seq<Event>, selectedSport: JsString): (r: seq<Event>)
    ensures |r| <= |events|
    ensures selectedSport != All ==> forall e :: e in r <==> e in events && e.sport == selectedSport
    ensures selectedSport != All ==>
      forall e: Event :: e.sport == selectedSport ==> multiset(r)[e] == multiset(events)[e]
  {
    if selectedSport == All then events else Filter(events, HasSport(selectedSport))
  }

  /** "All Sports" shows the list as it is. */
  lemma FilterAllSports(events: seq<Event>)
    ensures FilteredEvents(events, All) == events
  {
  }

  /**
   * Any other choice shows, in their original order, exactly the events of that
   * sport, each as often as in the list.
   */
  lemma FilterBySport(events: seq<Event>, sport: JsString)
    requires sport != All
    ensures IsSubsequence(FilteredEvents(events, sport), events)
    ensures multiset(FilteredEvents(events, sport)) <= multiset(events)
    ensures forall i :: 0 <= i < |FilteredEvents(events, sport)| ==> FilteredEvents(events, sport)[i].sport == sport
    ensures forall e: Event :: e.sport == sport ==> multiset(FilteredEvents(events, sport))[e] == multiset(events)[e]
  {
    FilterIsSubsequence(events, HasSport(sport));
  }

  /** Filtering what is shown by the same sport again shows the same list. */
  lemma FilterIdempotent(events: seq<Event>, sport: JsString)
    ensures FilteredEvents(FilteredEvents(events, sport), sport) == FilteredEvents(events, sport)
  {
    if sport != All {
      Sequences.FilterIdempotent(events, HasSport(sport));
    }
  }

  /** A sport the list does not hold shows the "No events found" message. */
  lemma NoEventsFound(events: seq<Event>, sport: JsString)
    requires sport != All && forall i :: 0 <= i < |events| ==> events[i].sport != sport
    ensures FilteredEvents(events, sport) == []
  {
  }

  /** The page's own state; `app` receives the `onRegister` calls. */
  class Calendar {
    const app: AppState
    var selectedSport: JsString
    var showSignup: bool
    var selectedEvent: Option<Event>

    /** The form is only ever shown for a remembered event. */
    predicate Valid()
      reads this
    {
      showSignup ==> selectedEvent.Some?
    }

    constructor (app: AppState)
      ensures this.app == app && Valid()
      ensures selectedSport == All && !showSignup && selectedEvent == None
    {
      this.app := app;
      selectedSport, showSignup, selectedEvent := All, false, None;
    }

    /** The events the page lists for the current choice. */
    function Shown(): (r: seq<Event>)
      reads this, app
      ensures selectedSport == All ==> r == app.events
    {
      FilteredEvents(app.events, selectedSport)
    }

    /** A filter button: it selects that sport and touches nothing else. */
    method SelectSport(sport: JsString)
      requires Valid()
      modifies this
      ensures Valid() && selectedSport == sport
      ensures showSignup == old(showSignup) && selectedEvent == old(selectedEvent)
    {
      selectedSport := sport;
    }

    /** handleSignupClick: remember the event and show the form. */
    method HandleSignupClick(event: Event)
      modifies this
      ensures Valid() && selectedEvent == Some(event) && showSignup
      ensures selectedSport == old(selectedSport)
    {
      selectedEvent := Some(event);
      showSignup := true;
    }

    /**
     * A click on a card's button: the form opens for that event unless the event
     * is fully booked, in which case the disabled button changes nothing.
     */
    method ClickCard(event: Event)
      requires Valid()
      modifies this
      ensures Valid() && selectedSport == old(selectedSport)
      ensures IsFullyBooked(event) ==> showSignup == old(showSignup) && selectedEvent == old(selectedEvent)
      ensures !IsFullyBooked(event) ==> showSignup && selectedEvent == Some(event)
    {
      var clicked := Click(event);
      if clicked.Some? {
        HandleSignupClick(clicked.value);
      }
    }

    /** onHide: the form closes; the remembered event stays. */
    method Hide()
      requires Valid()
      modifies this
      ensures Valid() && !showSignup
      ensures selectedEvent == old(selectedEvent) && selectedSport == old(selectedSport)
    {
      showSignup := false;
    }

    /**
     * handleSignupSubmit: registers once for the remembered event, then closes the
     * form and forgets the event. With no remembered event, reading its id throws
     * before anything changes; `threw` reports that.
     */
    method HandleSignupSubmit(registrationData: SignupData) returns (threw: bool)
      requires Valid()
      modifies this, app
      ensures threw <==> old(selectedEvent).None?
      ensures threw ==> unchanged(this) && unchanged(app)
      ensures !threw ==>
        && app.registrations == old(app.registrations) + [Registration(old(selectedEvent).value.id, None, registrationData)]
        && app.events == DecrementSpots(old(app.events), old(selectedEvent).value.id)
        && !showSignup && selectedEvent == None && selectedSport == old(selectedSport)
      ensures Valid()
    {
      if selectedEvent.None? {
        return true;
      }
      app.HandleEventRegistration(selectedEvent.value.id, registrationData);
      showSignup := false;
      selectedEvent := None;
      threw := false;
    }

    /**
     * The whole sign-up flow for one card while no form is open: a click, then,
     * if the form opened, the submitted form. It registers exactly when the event
     * is not fully booked, so registering through the page never takes a listed
     * event below zero free spots.
     */
    method SignUp(event: Event, registrationData: SignupData)
      requires Valid() && !showSignup
      modifies this, app
      ensures Valid() && !showSignup && selectedSport == old(selectedSport)
      ensures !IsFullyBooked(event) ==>
        && app.registrations == old(app.registrations) + [Registration(event.id, None, registrationData)]
        && app.events == DecrementSpots(old(app.events), event.id)
        && selectedEvent == None
      ensures IsFullyBooked(event) ==>
        && app.registrations == old(app.registrations) && app.events == old(app.events)
        && selectedEvent == old(selectedEvent)
      ensures event in old(app.events) && DistinctIds(old(app.events)) && NoNegativeSpots(old(app.events)) ==>
        NoNegativeSpots(app.events)
    {
      ClickCard(event);
      if showSignup {
        var _ := HandleSignupSubmit(registrationData);
        if event in old(app.events) && DistinctIds(old(app.events)) && NoNegativeSpots(old(app.events)) {
          var k :| 0 <= k < |old(app.events)| && old(app.events)[k] == event;
          GatedRegistrationKeepsSpots(old(app.events), k);
        }
      }
    }
  }
}

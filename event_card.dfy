/**
 * One event's card: its sport badge colour, whether it is fully booked, and the
 * sign-up button that booking state decides.
 */
module EventCard {
  import opened Wrappers
  import opened JsStrings
  import opened Entities

  /**
   * getSportColor: the Bootstrap colour of a sport's badge, "secondary" for a
   * sport the table does not list.
   */
  function SportColor(sport: JsString): (color: string)
    ensures sport == Tennis <==> color == "success"
    ensures sport == Badminton <==> color == "warning"
    ensures sport == Weightlifting <==> color == "danger"
    ensures sport == Pickleball <==> color == "info"
    ensures sport !in {Tennis, Badminton, Weightlifting, Pickleball} <==> color == "secondary"
  {
    if sport == Tennis then "success"
    else if sport == Badminton then "warning"
    else if sport == Weightlifting then "danger"
    else if sport == Pickleball then "info"
    else "secondary"
  }

  /** `availableSpots === 0`: only exactly zero counts, so an overbooked event is not fully booked. */
  predicate IsFullyBooked(event: Event) {
    event.availableSpots == 0
  }

  /** What the card's sign-up button shows and whether it takes clicks. */
  datatype SignupButton = SignupButton(variant: string, text: string, disabled: bool)

  /**
   * The sign-up button: disabled, grey and labelled "Fully Booked" exactly when
   * the event is fully booked, otherwise an enabled "Sign Up" button.
   */
  function Button(event: Event): (b: SignupButton)
    ensures b.disabled <==> event.availableSpots == 0
    ensures b.text == "Fully Booked" <==> b.disabled
    ensures b.text == "Sign Up" <==> !b.disabled
    ensures b.variant == (if b.disabled then "secondary" else "primary")
  {
    var full := IsFullyBooked(event);
    SignupButton(if full then "secondary" else "primary", if full then "Fully Booked" else "Sign Up", full)
  }

  /**
   * A click on the button: the event handed to `onSignupClick`, or nothing when
   * the button is disabled and the click never reaches the handler.
   */
  function Click(event: Event): (r: Option<Event>)
    ensures r.Some? <==> !Button(event).disabled
    ensures r.Some? ==> r.value == event
  {
    if IsFullyBooked(event) then None else Some(event)
  }

  /** An event with fewer than zero free spots still offers sign-up. */
  lemma OverbookedStillOpen(event: Event)
    requires event.availableSpots < 0
    ensures !IsFullyBooked(event) && Click(event) == Some(event)
    ensures Button(event).text == "Sign Up"
  {
  }
}

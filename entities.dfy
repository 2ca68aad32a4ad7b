/**
 * The records the app keeps: users, events, event registrations and community
 * posts, with the sport names the events use.
 */
module Entities {
  import opened Wrappers
  import opened JsStrings

  /**
   * A stored account. Accounts made by the registration form carry a
   * `passwordHash`; older accounts carry the plain-text `password` instead.
   */
  datatype User = User(
    id: JsString,
    firstName: JsString,
    lastName: JsString,
    email: JsString,
    phone: JsString,
    passwordHash: Option<JsString>,
    password: Option<JsString>,
    createdAt: JsString)

  /** An event; `availableSpots` is a plain number, so nothing keeps it non-negative. */
  datatype Event = Event(
    id: int,
    title: JsString,
    sport: JsString,
    date: JsString,
    time: JsString,
    location: JsString,
    availableSpots: int,
    maxSpots: int,
    description: JsString)

  /** The fields of the event sign-up form. */
  datatype SignupData = SignupData(
    firstName: JsString,
    lastName: JsString,
    email: JsString,
    phone: JsString,
    emergencyContact: JsString)

  /** A registration record: the event's id, the registering user's id when the record has one, and the form. */
  datatype Registration = Registration(eventId: int, userId: Option<JsString>, details: SignupData)

  /** A community post; `createdAt` is the timestamp, in milliseconds, that its ISO date string denotes. */
  datatype Post = Post(
    id: int,
    title: JsString,
    content: JsString,
    category: JsString,
    authorName: JsString,
    userId: JsString,
    createdAt: int)

  const Tennis: JsString := Lit("tennis")
  const Badminton: JsString := Lit("badminton")
  const Weightlifting: JsString := Lit("weightlifting")
  const Pickleball: JsString := Lit("pickleball")

  /** `users.find(u => u.email === email)`: the first user with that e-mail, if any. */
  function FindByEmail(users: seq<User>, email: JsString): (r: Option<User>)
    ensures r.None? <==> forall i :: 0 <= i < |users| ==> users[i].email != email
    ensures r.Some? ==> r.value.email == email
    ensures r.Some? ==> exists k :: (0 <= k < |users| && users[k] == r.value
      && forall j :: 0 <= j < k ==> users[j].email != email)
  {
    if users == [] then None
    else if users[0].email == email then Some(users[0])
    else
      FindByEmail(users[1..], email)
  }

  /** A user appended after users that all have other e-mails is the one found. */
  lemma {:induction false} FindAppended(users: seq<User>, u: User)
    requires forall i :: 0 <= i < |users| ==> users[i].email != u.email
    ensures FindByEmail(users + [u], u.email) == Some(u)
  {
    if users != [] {
      assert (users + [u])[1..] == users[1..] + [u];
      FindAppended(users[1..], u);
    }
  }
}

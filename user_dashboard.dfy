/**
 * The member dashboard: the events the logged-in user registered for, the posts
 * they wrote, and the short preview of each post.
 */
module UserDashboard {
  import opened Wrappers
  import opened JsStrings
  import opened Entities
  import opened Sequences

  /** The two lists the dashboard shows. */
  datatype Lists = Lists(userEvents: seq<Event>, userPosts: seq<Post>)

  /** Both lists start empty. */
  const Initial: Lists := Lists([], [])

  /** The test `reg => reg.userId === currentUser.id`; a record without a user id never passes. */
  function ByUser(userId: JsString): Registration -> bool {
    (reg: Registration) => reg.userId == Some(userId)
  }

  /** `registrations.some(reg => reg.eventId === eventId)`. */
  function AnyFor(registrations: seq<Registration>, eventId: int): (found: bool)
    ensures found <==> exists k :: 0 <= k < |registrations| && registrations[k].eventId == eventId
  {
    if registrations == [] then false
    else registrations[0].eventId == eventId || AnyFor(registrations[1..], eventId)
  }

  /** The test applied to each stored event. */
  function IsRegistered(userRegistrations: seq<Registration>): Event -> bool {
    (e: Event) => AnyFor(userRegistrations, e.id)
  }

  /**
   * registeredEvents: the stored events that one of the user's registrations
   * names. Each event shown is stored, and is shown as often as it is stored.
   */
  function RegisteredEvents(allEvents: seq<Event>, registrations: seq<Registration>, userId: JsString): (r: seq<Event>)
    ensures |r| <= |allEvents|
    ensures forall e :: e in r ==> e in allEvents && multiset(r)[e] == multiset(allEvents)[e]
  {
    Filter(allEvents, IsRegistered(Filter(registrations, ByUser(userId))))
  }

  /** The test `post => post.userId === currentUser.id`. */
  function ByAuthor(userId: JsString): Post -> bool {
    (p: Post) => p.userId == userId
  }

  /**
   * userSpecificPosts: the stored posts the user wrote, each as often as it is
   * stored, and no other post.
   */
  function UserPosts(allPosts: seq<Post>, userId: JsString): (r: seq<Post>)
    ensures forall p :: p in r <==> p in allPosts && p.userId == userId
    ensures forall p: Post :: p.userId == userId ==> multiset(r)[p] == multiset(allPosts)[p]
  {
    Filter(allPosts, ByAuthor(userId))
  }

  /** A registration of that user for that event exists in the stored list. */
  ghost predicate RegisteredFor(registrations: seq<Registration>, userId: JsString, eventId: int) {
    exists k :: 0 <= k < |registrations| && registrations[k].userId == Some(userId) && registrations[k].eventId == eventId
  }

  /**
   * An event is shown exactly when it is stored and some registration carries
   * both the user's id and the event's id; the shown events keep their stored
   * order and each appears at most as often as it is stored, however many
   * registrations name it.
   */
  lemma RegisteredEventsExactly(allEvents: seq<Event>, registrations: seq<Registration>, userId: JsString)
    ensures forall e :: e in RegisteredEvents(allEvents, registrations, userId) <==>
      e in allEvents && RegisteredFor(registrations, userId, e.id)
    ensures IsSubsequence(RegisteredEvents(allEvents, registrations, userId), allEvents)
    ensures multiset(RegisteredEvents(allEvents, registrations, userId)) <= multiset(allEvents)
    ensures forall e: Event :: RegisteredFor(registrations, userId, e.id) ==>
      multiset(RegisteredEvents(allEvents, registrations, userId))[e] == multiset(allEvents)[e]
  {
    var mine := Filter(registrations, ByUser(userId));
    forall e: Event ensures AnyFor(mine, e.id) <==> RegisteredFor(registrations, userId, e.id) {
      if AnyFor(mine, e.id) {
        var k :| 0 <= k < |mine| && mine[k].eventId == e.id;
        assert mine[k] in registrations;
      }
      if RegisteredFor(registrations, userId, e.id) {
        var k :| 0 <= k < |registrations| && registrations[k].userId == Some(userId)
          && registrations[k].eventId == e.id;
        assert registrations[k] in mine;
      }
    }
    FilterIsSubsequence(allEvents, IsRegistered(mine));
  }

  /**
   * The posts shown are the user's stored posts in stored order, as an
   * order-preserving subsequence of the stored posts.
   */
  lemma UserPostsExactly(allPosts: seq<Post>, userId: JsString)
    ensures IsSubsequence(UserPosts(allPosts, userId), allPosts)
    ensures multiset(UserPosts(allPosts, userId)) <= multiset(allPosts)
  {
    FilterIsSubsequence(allPosts, ByAuthor(userId));
  }

  /**
   * The effect run when the logged-in user changes: with a user, both lists are
   * recomputed from the stored events, registrations and posts; without one,
   * nothing is loaded and the lists stay as they were.
   */
  function Refresh(currentUser: Option<User>, allEvents: seq<Event>, registrations: seq<Registration>,
                   allPosts: seq<Post>, shown: Lists): (r: Lists)
    ensures currentUser.None? ==> r == shown
    ensures currentUser.Some? ==> r.userEvents == RegisteredEvents(allEvents, registrations, currentUser.value.id)
    ensures currentUser.Some? ==> r.userPosts == UserPosts(allPosts, currentUser.value.id)
  {
    if currentUser.None? then shown
    else
      var id := currentUser.value.id;
      Lists(RegisteredEvents(allEvents, registrations, id), UserPosts(allPosts, id))
  }

  /** Without a logged-in user the dashboard never loads anything: both lists stay empty. */
  lemma NoUserNothingLoaded(allEvents: seq<Event>, registrations: seq<Registration>, allPosts: seq<Post>)
    ensures Refresh(None, allEvents, registrations, allPosts, Initial) == Lists([], [])
  {
  }

  const DashboardPreviewLength: nat := 150

  /** The dashboard's post preview: the first 150 code units, then "..." when there were more. */
  function Preview(content: JsString): (r: JsString)
    ensures |content| <= DashboardPreviewLength ==> r == content
    ensures |content| > DashboardPreviewLength ==>
      |r| == DashboardPreviewLength + 3 && r[..DashboardPreviewLength] == content[..DashboardPreviewLength]
      && r[DashboardPreviewLength..] == Ellipsis
  {
    Head(content, DashboardPreviewLength) + (if |content| > DashboardPreviewLength then Ellipsis else [])
  }
}

# Summit Sports Club: a verified model of the client-side logic

The Summit Sports Club web app is a React single-page app. Members browse sports
events and sign up for them, register accounts, log in, and write community
posts. All state lives in the browser: App keeps the event list and the event
registrations in component state, and the account and post forms keep users,
posts and the current user in `sessionStorage`.

This project models the logic inside that app and proves what it does:

- the utility module: the 32-bit password checksum, its check, and the storage
  helpers with their JSON fallback;
- App's seeded events and its event-registration transition;
- the validate-then-store handlers of the registration, login and new-post forms;
- the queries and display rules of the dashboard, the events page, the event
  card and the posts list.

Strings are sequences of UTF-16 code units (`JsStrings.JsString`), as JavaScript
sees them. `trim` uses the exact ECMAScript white-space set. Integers are
unbounded, and the 32-bit operators of the checksum (`<<`, `&`, ToInt32) are
written out (module `Int32`). Base 36 is in module `Radix`.

Inputs the logic cannot compute are parameters. These are the generated ids and
the clock timestamps, `JSON.parse`/`JSON.stringify` (functions returning
`Option`), `sanitizeHtml` (an uninterpreted function), and whether a storage
write is accepted. A post's `createdAt` is taken as the millisecond timestamp
that its ISO date string denotes.

The page handlers follow a single pattern:

- a pure function states the decision: `Register.Submit`, `Login.Authenticate`,
  `CreatePost.Compose`;
- a method runs the checks in the source's order with early returns, proved
  equal to that function: `Register.CheckSubmission`, `Login.CheckLogin`,
  `CreatePost.CheckPost`;
- a page class holds the page's own fields (error, success, isSubmitting);
- `Session.SessionState` holds the decoded `users`, `posts` and `currentUser`
  entries that the handler reads and replaces.

The registration handler of App is modelled as the code has it. It does no
duplicate check, no check that the event exists, no check for free spots, and no
floor at zero, and it keeps events and registrations only in component state.
These facts are proved about it:

- five registrations for a 4-spot event leave -1 (`App.NoFloorAtZero`);
- the event card's disabled button is the only thing that keeps spots
  non-negative when signing up through the page
  (`App.GatedRegistrationKeepsSpots`, `EventCalendar.Calendar.SignUp`).

Some facts about the app as a whole follow from the code but are not part of
any contract:

- Nothing in the modelled code writes the `events` or `registrations` storage
  keys that the dashboard reads, so its event list is empty in practice.
- The records App appends carry no user id, so none of them would match the
  dashboard's user filter.
- The registration, login and new-post pages are not among App's routes
  (src/App.jsx:76-89).

## Model

| member | source | states |
|---|---|---|
| JsStrings.Trim | src/components/CreatePost.jsx:33 | `trim()` never returns something longer than its input, and its result neither starts nor ends with white space |
| JsStrings.TrimIsSlice | src/components/Register.jsx:66-69 | `trim()` returns a contiguous slice of its input, and everything cut off on either side is white space |
| JsStrings.TrimPadding | src/components/CreatePost.jsx:48-49 | the typed text is a white-space prefix, then the trimmed text, then a white-space suffix |
| JsStrings.TrimIgnoresPadding | src/components/Login.jsx:28 | white space added around a string does not change its `trim()` |
| JsStrings.TrimIdempotent | src/components/Register.jsx:66 | trimming twice is trimming once |
| JsStrings.ToLower | src/components/Login.jsx:28 | `toLowerCase()` keeps the length and lower-cases each code unit (ASCII letters only) |
| JsStrings.ToLowerIdempotent | src/components/Register.jsx:68 | lower-casing twice is lower-casing once |
| JsStrings.ToLowerTrim | src/components/Register.jsx:68 | lower-casing commutes with `trim()`, because it maps white space to white space |
| JsStrings.Normalize | src/components/Login.jsx:28 | `trim().toLowerCase()` is never longer than its input, and on a string without white space it only lower-cases |
| JsStrings.NormalizeIdempotent | src/components/Register.jsx:68 | normalising a stored (already normalised) e-mail changes nothing |
| JsStrings.NormalizeIgnoresPaddingAndCase | src/components/Login.jsx:28 | surrounding white space and letter case do not change the normalised e-mail |
| JsStrings.Head | src/components/UserDashboard.jsx:139 | `substring(0, n)` is the first min(n, length) code units |
| Int32.ToUint32 | src/utils/helpers.js:103 | ToUint32 lies in [0, 2^32) and is congruent to its argument modulo 2^32 |
| Int32.ToInt32 | src/utils/helpers.js:103 | ToInt32 lies in [-2^31, 2^31) and is congruent to its argument modulo 2^32 |
| Int32.ToInt32OfCongruent | src/utils/helpers.js:103 | integers with the same 32-bit pattern convert to the same Int32 |
| Int32.ToInt32OfInt32 | src/utils/helpers.js:103 | ToInt32 is the identity on the Int32 range |
| Int32.LeftShift | src/utils/helpers.js:102 | `<<` always yields a signed 32-bit integer |
| Int32.LeftShiftFive | src/utils/helpers.js:102 | `x << 5` is 32·x modulo 2^32 |
| Int32.BitwiseAnd | src/utils/helpers.js:103 | `&` always yields a signed 32-bit integer |
| Int32.AndBits | src/utils/helpers.js:103 | the bitwise AND of two non-negative integers is at most each of them |
| Int32.BitwiseAndSelf | src/utils/helpers.js:103 | `hash & hash` is exactly ToInt32(hash) |
| Int32.AndBitsSelf | src/utils/helpers.js:103 | a bit pattern ANDed with itself is unchanged |
| Radix.ToBase36 | src/utils/helpers.js:105 | `toString(36)` of a non-negative integer is non-empty, uses only 0-9a-z, and starts with 0 only for the value 0 |
| Radix.FromToBase36 | src/utils/helpers.js:105 | reading back the base-36 numeral of n gives n |
| Radix.ToFromBase36 | src/utils/helpers.js:105 | every canonical numeral is the numeral of its value, so numerals and values correspond one to one |
| Helpers.LoopStepIsRollingStep | src/utils/helpers.js:102-103 | the loop body `((hash << 5) - hash) + char`, then `hash & hash`, is `31·hash + char` wrapped to a signed 32-bit integer |
| Helpers.HashLoopStep | src/utils/helpers.js:100-104 | one pass of the loop extends the checksum of the prefix read so far by one code unit |
| Helpers.RollingHash | src/utils/helpers.js:99-104 | the checksum of any string is a signed 32-bit integer |
| Helpers.PasswordHash | src/utils/helpers.js:97-106 | hashPassword returns a canonical base-36 numeral whose value is the absolute checksum, at most 2^31 |
| Helpers.HashPassword | src/utils/helpers.js:97-106 | the loop computes exactly PasswordHash, for every input |
| Helpers.VerifyPassword | src/utils/helpers.js:114-116 | a hash verifies iff it is a canonical numeral whose value is the password's absolute checksum |
| Helpers.HashNumeralUnique | src/utils/helpers.js:114-116 | a canonical numeral with the checksum's value is the password's hash |
| Helpers.VerifyOwnHash | src/utils/helpers.js:114-116 | every password verifies against its own hash |
| Helpers.EmptyPasswordHash | src/utils/helpers.js:99-105 | the empty password hashes to "0" |
| Helpers.ChecksumCollision | src/utils/helpers.js:114-116 | distinct passwords can verify against each other's hash: "Aa" against the hash of "BB" |
| Helpers.Loaded | src/utils/helpers.js:9-19 | what safeSessionStorageGet returns is either the fallback or the value the stored text parses to |
| Helpers.Remaining | src/utils/helpers.js:15-17 | after safeSessionStorageGet the storage has lost at most the read key, and every other entry is unchanged |
| Helpers.SafeGet | src/utils/helpers.js:9-19 | a missing or empty entry gives the fallback and changes nothing; an unparsable one is removed and gives the fallback; otherwise the parsed value is returned |
| Helpers.SafeSet | src/utils/helpers.js:26-32 | a successful write maps the key to the serialised data and touches no other key; a failed one leaves the storage unchanged |
| Helpers.SetThenGet | src/utils/helpers.js:9-32 | writing a value and reading it back returns the value, for a codec that round-trips it |
| WebStorage.SessionStorage.GetItem | src/utils/helpers.js:11 | getItem returns the stored string, or null for a missing key |
| WebStorage.SessionStorage.SetItem | src/utils/helpers.js:28 | setItem stores the value under the key or, when refused, leaves the storage as it was |
| WebStorage.SessionStorage.RemoveItem | src/utils/helpers.js:16 | removeItem drops that key only |
| Sequences.Filter | src/components/UserDashboard.jsx:24 | `filter` keeps exactly the elements that pass, each as many times as it occurs in the input, and is never longer than its input |
| Sequences.FilterIsSubsequence | src/components/UserDashboard.jsx:16 | a filtered list is a subsequence of its input, with no element more often than before |
| Sequences.FilterIdempotent | src/components/EventCalendar.jsx:15 | filtering again with the same test changes nothing |
| Sequences.FilterAll | src/components/EventCalendar.jsx:15 | a filter every element passes returns its input |
| Entities.FindByEmail | src/components/Login.jsx:41 | `find` returns nothing iff no user has the e-mail; otherwise it returns the first user with it |
| Entities.FindAppended | src/components/Register.jsx:83-103 | a user appended after users with other e-mails is the one found by its e-mail |
| Register.MatchesEmailPattern | src/components/Register.jsx:57-58 | an address the pattern accepts is non-empty and starts with a character that is neither white space nor '@' |
| Register.EmailPatternLanguage | src/components/Register.jsx:57-58 | the automaton accepts exactly the strings of `^[^\s@]+@[^\s@]+\.[^\s@]+$`: three non-empty parts without white space or '@', joined by '@' and '.' |
| Register.EmailPatternShape | src/components/Register.jsx:57-58 | an address passes iff it has no white space, exactly one '@' with text before it, and a '.' after it with text on both sides |
| Register.AcceptedEmailIsClean | src/components/Register.jsx:58-68 | an address that passes contains no white space, so trimming it changes nothing and it stays non-empty |
| Register.Submit | src/components/Register.jsx:44-100 | the decision of handleSubmit: a failure carries one of the five messages; an acceptance has matching passwords of at least 6 characters and a new user with the given id and a non-empty e-mail that no stored user has |
| Register.SubmitMessages | src/components/Register.jsx:44-87 | each message is shown exactly when its check is the first to fail, in the order mismatch, length, pattern, required fields, taken e-mail |
| Register.SubmitAccepts | src/components/Register.jsx:44-100 | registration succeeds iff every check passes. The new user has the trimmed names and phone, the lower-cased e-mail that no stored user has, and the hash of the untrimmed password, which verifies |
| Register.CheckSubmission | src/components/Register.jsx:44-100 | the early-return chain computes exactly Submit |
| Register.RegisterPage.HandleSubmit | src/components/Register.jsx:37-108 | a failure shows its message and changes no stored data; success appends exactly the new user at the end and makes it the current user |
| Login.PasswordAccepted | src/components/Login.jsx:50-52 | a user with a non-empty stored checksum accepts a password iff the checksum is that password's hash; a user without one (absent or empty) accepts a password iff the stored plain-text password equals it, so a user with neither accepts nothing |
| Login.Authenticate | src/components/Login.jsx:28-58 | the decision of handleSubmit: a failure carries one of the two messages; the user logged in is a stored user with the normalised e-mail, and the password is non-empty |
| Login.CheckLogin | src/components/Login.jsx:28-62 | the early-return chain (fields, lookup, password) computes exactly Authenticate |
| Login.AuthenticateAccepts | src/components/Login.jsx:28-58 | login succeeds iff both fields are filled, some stored user has the normalised e-mail, and the first such user accepts the password; the user logged in is that first match |
| Login.AuthenticateMessages | src/components/Login.jsx:31-61 | empty fields give one message; an unknown e-mail and a wrong password give the same other message |
| Login.RegisterThenLogin | src/components/Login.jsx:28-58 | after a successful registration, login with the same password and an e-mail that normalises the same returns the new user |
| Login.RegisterThenLoginVariant | src/components/Login.jsx:28-58 | the same round trip for the e-mail typed in another letter case with white space around it |
| Login.LoginPage.HandleSubmit | src/components/Login.jsx:22-63 | the outcome is Authenticate's; a failure shows its message and keeps the current user; success makes the found user current; users and posts never change |
| CreatePost.AuthorName | src/components/CreatePost.jsx:51 | the author name is the first name, one space, and the last name |
| CreatePost.Compose | src/components/CreatePost.jsx:27-54 | the decision of handleSubmit: a failure carries one of the three messages; an accepted post has the given id, the logged-in user's id, and a title and content of at least 5 and 10 code units |
| CreatePost.ComposeMessages | src/components/CreatePost.jsx:27-43 | each message is shown exactly when its check is the first to fail: no user before short title before short content |
| CreatePost.ComposedPost | src/components/CreatePost.jsx:46-54 | an accepted post has the trimmed title and content, each long enough, the category as typed, and the author's name and id |
| CreatePost.CheckPost | src/components/CreatePost.jsx:27-54 | the early-return chain computes exactly Compose |
| CreatePost.CreatePostPage.HandleSubmit | src/components/CreatePost.jsx:22-59 | a failure shows its message and keeps the stored posts; success appends exactly the new post at the end; users and current user never change |
| App.SeedEventsWellFormed | src/App.jsx:13-58 | the four seeded events have the ids 1 to 4 and between 0 and their maximum spots free |
| App.Booked | src/App.jsx:65-67 | one event after a registration: a spot fewer if it has the id, every other field unchanged |
| App.DecrementSpots | src/App.jsx:64-68 | the event list keeps its length and order; each event with the id loses exactly one spot, with no floor; all other fields and events are unchanged |
| App.DecrementUnknownId | src/App.jsx:64-68 | an id no event carries leaves the event list exactly as it was |
| App.DecrementTotal | src/App.jsx:64-68 | the total of free spots drops by the number of events carrying the id |
| App.CountDistinct | src/App.jsx:13-58 | with distinct ids, an id that occurs is carried by exactly one event |
| App.RegistrationTakesOneSpot | src/App.jsx:64-68 | with distinct ids, a registration for a listed event takes exactly one spot in total, from that event |
| App.GatedRegistrationKeepsSpots | src/App.jsx:64-68 | with distinct ids and no negative counts, registering for a listed event that is not fully booked leaves no negative counts |
| App.DecrementKeepsIds | src/App.jsx:64-68 | ids never change, so distinct ids stay distinct |
| App.NoFloorAtZero | src/App.jsx:30-35 | five registrations for the 4-spot badminton tournament leave -1 free spots |
| App.AppState.constructor | src/App.jsx:13-60 | the app starts with the seeded events and no registrations |
| App.AppState.HandleEventRegistration | src/App.jsx:62-69 | the record with the event id and the form is appended with no duplicate check, and the events become DecrementSpots of the old ones |
| EventCard.SportColor | src/components/EventCard.jsx:5-13 | tennis, badminton, weightlifting and pickleball map to success, warning, danger and info, and anything else to secondary; the dashboard's getSportColor (src/components/UserDashboard.jsx:29-37) is the same table |
| EventCard.Button | src/components/EventCard.jsx:25-53 | the button is disabled iff availableSpots is exactly 0; then it reads "Fully Booked" in grey, and otherwise "Sign Up" in blue |
| EventCard.Click | src/components/EventCard.jsx:48-49 | a click reaches onSignupClick, with the card's event, iff the button is enabled |
| EventCard.OverbookedStillOpen | src/components/EventCard.jsx:25 | an event with a negative spot count is not fully booked and still offers sign-up |
| EventCalendar.FilteredEvents | src/components/EventCalendar.jsx:13-15 | the list shown is never longer than the events; for a sport, it holds exactly the events of that sport, each as often as it is stored |
| EventCalendar.FilterAllSports | src/components/EventCalendar.jsx:13-14 | "all" shows the event list unchanged |
| EventCalendar.FilterBySport | src/components/EventCalendar.jsx:15 | a sport shows an order-preserving subsequence of the events, each of that sport, and every event of that sport as often as it is stored |
| EventCalendar.FilterIdempotent | src/components/EventCalendar.jsx:13-15 | filtering the shown list again by the same choice shows the same list |
| EventCalendar.NoEventsFound | src/components/EventCalendar.jsx:51-53 | a sport no event has shows an empty list, hence the "No events found" message |
| EventCalendar.Calendar.constructor | src/components/EventCalendar.jsx:7-9 | the page starts on "all" with no form shown and no event remembered |
| EventCalendar.Calendar.Shown | src/components/EventCalendar.jsx:13-14 | with "all" selected the page lists the app's events as they are |
| EventCalendar.Calendar.SelectSport | src/components/EventCalendar.jsx:39 | a filter button selects its sport and changes nothing else |
| EventCalendar.Calendar.HandleSignupClick | src/components/EventCalendar.jsx:17-20 | the clicked event is remembered and the form shown |
| EventCalendar.Calendar.ClickCard | src/components/EventCalendar.jsx:58-61 | a card click opens the form for its event unless the event is fully booked, when nothing changes |
| EventCalendar.Calendar.Hide | src/components/EventCalendar.jsx:70 | closing the form keeps the remembered event |
| EventCalendar.Calendar.HandleSignupSubmit | src/components/EventCalendar.jsx:22-26 | registers once with the remembered event's id, then hides the form and forgets the event; with no event remembered it throws before changing anything |
| EventCalendar.Calendar.SignUp | src/components/EventCalendar.jsx:17-26 | a click and a submit register exactly for a card that is not fully booked (and then forget the event), change nothing for a fully booked one, keep the selected sport, and never take a listed event below zero free spots |
| UserDashboard.AnyFor | src/components/UserDashboard.jsx:17 | `some` holds iff some registration names the event id |
| UserDashboard.RegisteredEvents | src/components/UserDashboard.jsx:15-18 | every event shown is a stored event, shown exactly as often as it is stored |
| UserDashboard.RegisteredEventsExactly | src/components/UserDashboard.jsx:15-18 | an event is shown iff it is stored and a registration carries both the user's id and its id; stored order kept; each such event shown exactly as often as stored |
| UserDashboard.UserPosts | src/components/UserDashboard.jsx:24 | a post is shown iff it is stored and has the user's id, and each such post exactly as often as stored |
| UserDashboard.UserPostsExactly | src/components/UserDashboard.jsx:24 | the posts shown are an order-preserving subsequence of the stored posts |
| UserDashboard.Refresh | src/components/UserDashboard.jsx:9-27 | with a user both lists are recomputed from storage; without one nothing is loaded |
| UserDashboard.NoUserNothingLoaded | src/components/UserDashboard.jsx:6-10 | without a logged-in user both lists stay empty |
| UserDashboard.Preview | src/components/UserDashboard.jsx:139-140 | the preview is the content up to 150 code units; a longer content shows its first 150 and "..." |
| PostsList.SortNewestFirst | src/components/PostsList.jsx:13 | sorting in place leaves the same posts, newest first |
| PostsList.InsertBack | src/components/PostsList.jsx:13 | one insertion step extends the newest-first prefix by one post, keeping the same posts and leaving every later position untouched |
| PostsList.SwapBack | src/components/PostsList.jsx:13 | exchanging two neighbours keeps the same posts |
| PostsList.Preview | src/components/PostsList.jsx:100-102 | content of up to 200 code units is shown whole; longer content shows its first 200 and "..." |
| PostsList.PreviewIsHeadAndEllipsis | src/components/PostsList.jsx:100-109 | the preview is `substring(0, 200)` followed by "..." exactly when "Read More" is shown, and at most 203 code units long |
| PostsList.CategoryColor | src/components/PostsList.jsx:28-37 | events, training, social and equipment map to success, warning, info and secondary, and anything else (general included) to primary |
| PostsList.Card | src/components/PostsList.jsx:88-115 | author, title and preview each pass through sanitizeHtml before insertion; "Read More" iff the content exceeds 200 code units |
| PostsList.CardInsertsNoTags | src/components/PostsList.jsx:92-103 | if sanitising never outputs '<', no card inserts markup that opens a tag, whatever the post holds |
| PostsList.PageLinks | src/components/PostsList.jsx:48-77 | "Create New Post" iff logged in; "Write the First Post" iff logged in with no posts; the login prompt iff logged out with no posts; the sign-up banner iff logged out with posts |
| PostsList.PostsListPage.Load | src/components/PostsList.jsx:9-15 | the page shows the stored posts (or none when the entry is missing or unreadable), newest first; the storage afterwards is as safeSessionStorageGet leaves it, with an unreadable entry removed |

## Left out

- Rendering, react-bootstrap layout, routing and `navigate`: presentation only.
- Timers (`createCancellableTimeout`, every `setTimeout`): asynchronous scheduling with no decision logic.
- `generateUniqueId`, `Date.now()` and `new Date().toISOString()`: clock and randomness. They are parameters of the handlers.
- `sanitizeHtml` internals: they use the browser DOM. Sanitising is a function parameter; `PostsList.CardInsertsNoTags` names the property assumed of it.
- `safeFormatDate` and the `formatDate` helpers: they need Date parsing and Intl locale formatting.
- `JSON.parse`/`JSON.stringify`: abstracted as codec functions, and the page handlers work on the decoded `SessionState`.
- UserDashboard's and CreatePost's unguarded `JSON.parse` would throw on a corrupted entry. That is not modelled.
- CreatePost.CreatePostPage.HandleSubmit: assumes the `posts` write succeeds. The raw `setItem` would throw when storage is full, and that is not modelled.
- Contact, EventSignup, ConfirmationModal, Home, AboutUs, Header: form plumbing and static content. EventSignup's form hands its five fields to the calendar and resets itself; `SignupData` stands for those fields.
- Cross-tab sharing of storage: concurrency.
- Register.RegisterPage.HandleSubmit: assumes the `users` and `currentUser` writes succeed. A refused write is swallowed by safeSessionStorageSet (modelled separately in `Helpers.SafeSet`).
- Register.RegisterPage.HandleSubmit: the new user's always-empty `registeredEvents` and `posts` fields (src/components/Register.jsx:97-98) are not in `Entities.User`.
- Login.LoginPage.HandleSubmit: assumes the `currentUser` write succeeds, as for registration.
- JsStrings.ToLower: only ASCII letters are lower-cased. The full Unicode case mapping of `toLowerCase` is not modelled.
- EventCard.SportColor, PostsList.CategoryColor: only the tables' own keys are modelled. A key inherited from `Object.prototype` (such as "constructor") would make the JavaScript lookup return a function instead of the default.
- PostsList.SortNewestFirst: states the result is newest first and a permutation of the input. It does not state the stability that `Array.prototype.sort` guarantees for posts with equal timestamps.
- PostsList.SortNewestFirst: timestamps are integers. An unparsable date, which makes the comparator return NaN, is not modelled.
- PostsList.Preview, UserDashboard.Preview: cut at a code-unit count, as `substring` does. A cut inside a surrogate pair is possible and is not treated specially.

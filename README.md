# College event registration, modelled in Dafny

This project models the core of a small college-events web application. The
server (`server.js`) keeps event documents. Coordinators create events.
Students register for an event, subject to a participant limit and a
one-registration-per-student rule. A reminder is due one hour before an event.
The browser client (`app.js`) checks its forms and derives what each event
card shows: spots left, whether the user is registered, and whether the event
is the user's own.

Modules:

- `Wrappers` (wrappers.dfy): `Option`, for JavaScript's `undefined`/`null` and NaN.
- `Events` (events.dfy): the registration record and the capacity value. `Event`
  is a class whose only mutable field is `registrations`. `EventStore` is a class
  holding the map from event id to event. It has the coordinator-only
  `CreateEvent` and the student `Register` handler. The pure functions
  `RegisterVerdict` and `AfterRegister` specify one registration step, and
  lemmas about them state the capacity and no-duplicate invariants.
- `Runs` (runs.dfy): histories of registration attempts. After any history
  both invariants hold and no registration is lost. A limit of n admits exactly
  the first n new students. A refused duplicate stays refused.
- `Reminders` (reminders.dfy): the reminder delay, and the `sendNotification`
  calls made for every registered student when the reminder fires.
- `Login` (login.dfy): the find-or-create login decision, the token claims, and
  the login reply, both as written and as the client expects it.
- `Client` (client.dfy): the sign-up, login and flyer checks, the year field
  rule, and the event card's values and button.

`maxParticipants` is modelled as `Capacity = Limit(n) | Unset`. Where the field
is absent, `length >= undefined` is false, so the event is never full, and the
card's `maxParticipants - length` is NaN (`SpotsLeft` returns `None`). A JSON
`null` behaves like 0 in both expressions, so it is `Limit(0)`. The capacity
invariant `WithinCapacity` also admits an empty list under a negative limit:
such an event can be created, and it stays empty.

The model follows the code as written. In particular:

- Capacity is checked before the duplicate. So on a full event, a student who
  is already registered gets Full, not AlreadyRegistered. With capacity 1, A,
  A, B gives Registered, Full, Full (`Runs.CapacityOneScenario`).
- Event creation checks only the caller's role. A zero, negative or missing
  `maxParticipants` is accepted; there is no invalid-argument outcome.
- The server has no delete route, so event deletion is not modelled.
- The read-check-append sequence is not atomic in the code. The model handles
  each request as one sequential step.

Inputs from outside the model are parameters: the current time, the new
document's id, the bcrypt hash, and the bcrypt comparison (a function
`matches`).

## Model

| member | source | states |
|---|---|---|
| Events.HasRegistration | server.js:106-108 | the duplicate check is true exactly when some registration's student equals the caller's id |
| Events.RegisterVerdict | server.js:92-112 | the three guards in order: Forbidden exactly for a non-student; then Full exactly when the event is full; then AlreadyRegistered exactly when some registration is the caller's; never NotFound for a found event |
| Events.AfterRegister | server.js:114-117 | only a success changes the list, appending one entry (caller, now, not attended) after the unchanged earlier entries |
| Events.NonStudentForbidden | server.js:92-94 | a caller whose role is not "student" is refused with Forbidden and the registrations are unchanged |
| Events.FullOutranksDuplicate | server.js:102-112 | on a full event, an already-registered student gets Full, because capacity is checked first |
| Events.VerdictEffect | server.js:102-117 | every refusal leaves the list unchanged; success happens exactly when the caller is a student, the event is not full and no registration is the caller's; success appends exactly one entry (caller, now, not attended) and keeps the earlier entries |
| Events.WithinCapacityBound | server.js:102-104 | with a limit of at least zero, the capacity invariant means exactly at most maxParticipants registrations |
| Events.RegisterKeepsBound | server.js:102-119 | if the list has at most maxParticipants entries before an attempt, it has at most that many after, whatever the outcome |
| Events.RegisterKeepsCapacity | server.js:102-119 | every outcome preserves the capacity invariant, including an unset limit |
| Events.RegisterKeepsDistinct | server.js:106-119 | every outcome keeps the student ids in the list distinct |
| Events.Event.constructor | server.js:173-192 | a new event holds the given fields and coordinator, no registrations and status upcoming, and satisfies both invariants |
| Events.Event.Register | server.js:102-119 | the role, capacity and duplicate checks in that order, then the push; a refusal leaves registrations unchanged, and both invariants are preserved |
| Events.EventStore.CreateEvent | server.js:66-87 | a non-coordinator is refused and the store is unchanged; otherwise exactly one fresh event is added under the new id, with coordinator equal to the caller, an empty list and the form's fields |
| Events.EventStore.Register | server.js:90-124 | Forbidden for a non-student before any lookup; NotFound for a missing id, with nothing changed; otherwise the found event's verdict and new list, with every other event unchanged and the store invariant kept |
| Runs.Run | server.js:102-119 | over any history the earlier registrations stay a prefix of the list, and the list grows by exactly the number of successful attempts |
| Runs.RunKeepsInvariants | server.js:102-119 | after any history of attempts, both the capacity and the no-duplicate invariants hold |
| Runs.RunFillsToCapacity | server.js:102-117 | with a limit n and only new, distinct students, the first n minus the current count succeed and all later ones get Full; the final count is the smaller of n and the total |
| Runs.RepeatedDuplicateRefused | server.js:106-112 | repeating a refused duplicate keeps getting AlreadyRegistered and never changes the list |
| Runs.CapacityOneScenario | server.js:102-117 | with capacity 1, A registers, then A and B both get Full |
| Reminders.ReminderDelay | server.js:213-220 | a reminder is scheduled exactly when the time one hour before the event is still in the future, and it then fires at that time |
| Reminders.ReminderDelayEarlier | server.js:217-220 | a reminder due at a later check is due at any earlier check too, with a delay longer by the difference |
| Reminders.ReminderNotifications | server.js:221-229 | one `sendNotification` call per registration, in order, for that student with the title "Event Reminder" and a message naming the event's title and venue; no student gets two calls when the invariants hold |
| Login.FindOrCreate | server.js:52-65 | an unknown email creates a user with the requested role; a known email signs in the stored user exactly when the password matches, and otherwise is refused |
| Login.ClaimsOf | server.js:126 | the token payload carries the user's id and stored role |
| Login.UsersAfter | server.js:55-59 | a created user is added under its email and every other user is kept; a sign-in of an existing user or a refusal leaves the users unchanged |
| Login.ExistingUserKeepsStoredRole | server.js:125-127 | for an existing user, the token carries the stored id and role, not the role asked for |
| Login.SecondLoginFindsCreatedUser | server.js:52-62 | logging in again with the same password after being created finds the same user, id and role; it assumes bcrypt's round-trip, that `bcrypt.compare` accepts a password against the hash `bcrypt.hash` made of it |
| Login.ReplyAsWritten | server.js:131 | the successful reply carries success and the token but no role or user id |
| Login.Reply | app.js:255-261 | the reply the client reads: success, token, and the user's role and id |
| Client.CheckSignup | app.js:111-120 | sign-up is refused for a password mismatch (checked first), then for a password under 6 characters, and accepted exactly when both checks pass; the same checks are repeated at app.js:181-190 |
| Client.YearFieldFor | app.js:77-80 | the year field is required exactly when the selected role is "student", and shown exactly when required |
| Client.LoginFormComplete | app.js:240-243 | login is refused exactly when the email, password or role is missing or empty |
| Client.StoreUser | app.js:258-261 | the stored user holds exactly the role and user id read from the login reply, absent when the reply lacks them |
| Client.CheckFlyer | app.js:429-434 | a flyer over 2097152 bytes is refused and exactly 2 MiB is allowed; a missing file ends in the failure path |
| Client.SpotsLeft | app.js:393 | spots left is maxParticipants minus the count of registrations, a missing list counting as 0; it is NaN (None) when the limit is missing |
| Client.SpotsLeftAgreesWithServer | app.js:553 | the card shows at most 0 spots exactly when the server would answer Full, and never a negative count for a valid event whose limit is at least zero |
| Client.IsRegistered | app.js:371 | true exactly when the user has an id, the event has registrations, and one of them is that user's |
| Client.IsOwnEvent | app.js:541 | true exactly when the stored role is "coordinator" and the event's coordinator is the stored user id |
| Client.RegisteredMarkAgreesWithServer | app.js:540 | the card's registered mark matches the server's list for that user, and when it holds the server would refuse a new attempt |
| Client.DetailCardAction | app.js:412-416 | the first card layout always shows a register button, disabled and labelled "Registered" exactly when the user is registered |
| Client.CardAction | app.js:560-572 | own events show Delete instead of Register; otherwise the register button is disabled and labelled "Registered" exactly when the user is registered |
| Client.AsWrittenReplyHidesUser | app.js:258-261 | with the reply as written, no card ever shows the user as registered or as the owner |
| Client.AsWrittenRegisteredStudentOfferedRegister | app.js:561-566 | a student registered for an event is still offered an enabled "Register Now" under the reply as written |
| Client.ReplyShowsUser | app.js:538-541 | with the corrected reply, the registered and own-event marks match the server's registrations and coordinator for the signed-in user |
| Client.RegisteredDetailCardAfterSuccess | app.js:412-416 | with the corrected login reply (Login.Reply): after a successful registration under the token's claims, the card of the inner layout, which the refresh after registering shows, has a disabled "Registered" button |
| Client.RegisteredCardAfterSuccess | app.js:564-565 | with the corrected login reply (Login.Reply): after a successful registration under the token's claims, the top-level layout's card shows a disabled "Registered" button |

## Left out

- HTTP routing, the auth middleware, and the 401/403/404/400/500 status codes are left out. The model keeps the outcome each handler reaches.
- Route wiring is left out. The creation and registration routes are registered inside the login handler (server.js:66-124), so they are missing before the first login and added again on every login. The model keeps the handler logic only.
- MongoDB persistence, Mongoose casting and validation errors, and the `catch` branches that answer 500 are not modelled.
- JSON Web Token signing and verification are not modelled. A token is the `Claims` it carries.
- bcrypt hashing and comparison are foreign calls. They enter as the parameters `hashed` and `matches`.
- The race between `findById` and `save` is out of scope (concurrency). Events.EventStore.Register is one sequential step, so the model does not show lost updates between concurrent requests.
- `Notification` is never defined in server.js: only the `User` and `Event` models exist. So every `sendNotification` write throws, and the `catch` at server.js:207-209 only logs it. Nothing is stored or delivered. The model stops at the calls made.
- The `setTimeout` dispatch and the notification writes are left out. Node.js also fires any delay above 2147483647 ms after 1 ms, which the model does not capture. No caller of the reminder scheduler exists in server.js.
- Reminders.ReminderDelay: takes "one hour earlier" as exactly 3600000 ms. The source calls `setHours(getHours() - 1)` on local wall-clock time, which differs across a daylight-saving change. A missing or invalid event date (NaN) is not modelled.
- The seed events inserted by `GET /api/events` (server.js:141-157) are left out as plain I/O. With them goes the one case of an event without a coordinator.
- A `maxParticipants` that is fractional, or that Mongoose cannot cast, is not modelled. Capacity is an integer or unset.
- The client also calls `DELETE /api/events/:id` and `GET /api/events/category/:c`. server.js defines neither route, so neither is modelled. Both sign-up handlers post to `POST /api/register` (app.js:133, app.js:203), which server.js also lacks. So a sign-up that passes Client.CheckSignup never creates a user; only the login find-or-create does. Both handlers are attached to the same form (app.js:106, app.js:176), so one submit runs the checks twice.
- Client DOM updates, `fetch`, `localStorage`, alerts and confirmations, the Notification API and the icon library are left out as I/O.
- The floating-point progress width (app.js:370, 539) is left out.
- Client.CheckSignup: compares the password length in Unicode characters. JavaScript counts UTF-16 code units, so passwords with characters outside the Basic Multilingual Plane can differ.
- Which card layout renders depends on the caller: the inner `displayEvents` from the page handler, or the top-level one from the category filter. Both layouts are modelled; the wiring between them is not.
- The attendance flag is never changed by the source, and no model member changes it.

## Findings

| source | as written | input that shows it | evidently intended | confidence | as-written member | corrected member |
|---|---|---|---|---|---|---|
| server.js:131 | a successful login replies with only `success` and `token` | student "s1" is registered for an event, logs in, and the card offers an enabled "Register Now"; a coordinator never sees Delete on their own events | the reply also carries the user's `role` and `userId`, which app.js:258-261 stores and app.js:371 and 540-541 compare | high; not executed | Client.AsWrittenRegisteredStudentOfferedRegister | Client.ReplyShowsUser, Client.RegisteredDetailCardAfterSuccess, Client.RegisteredCardAfterSuccess |

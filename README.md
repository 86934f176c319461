# Live polling: session and poll engine

This project models the backend of a live-polling service in Dafny. A teacher opens a
session (a room with an id such as `room-4821`). Students join it under a display name,
and the teacher runs timed multiple-choice polls. Every answer is broadcast to the room
as a live tally. The teacher can remove a student, which bans the name from that session
for as long as the session exists. A lost connection ends the session, if it was the
teacher's, or takes the student off the roster.

The model has three layers, one module each, following the backend's three files:

- `SessionStore` (`session_store.dfy`) holds the module-level `sessions` object as the
  class `Store`. Its field `sessions` is an insertion-ordered list of
  `(session id, Session)` pairs. `Session` and `Poll` are the records.
  `CreateSession`, `Get` and `DeleteSession` are the store's three operations.
- `SessionsServices` (`sessions_services.dfy`) holds the business rules as methods that
  change the store: `TeacherInit`, `StudentJoin`, `CreatePoll`, `SubmitAnswer`,
  `RemoveStudent` and `CleanupOnDisconnect`. Each method's contract states the new store
  in terms of the old one. Each also states the result or the error it throws.
- `PollHandlers` (`poll_handlers.dfy`) holds `Tally` and one method per socket event.
  Each handler returns the messages it would send, in order. A message is either an
  emit to a room, an emit to the calling socket, or a call of the acknowledgement
  callback. The poll's close timer is returned as a value, and `FirePollTimer` models
  its callback running.

`AssocLists` (`assoc_lists.dfy`) models a JavaScript object with string keys as a
list of key/value pairs. Assigning a new key appends it, and assigning an existing key
keeps its position. `delete` removes the key, and `Object.values` lists values in
insertion order. This keeps the disconnect scan's "first session that matches" and
the order of every roster list exact. `Scenarios` (`scenarios.dfy`) chains handlers
to show three multi-event behaviours.

Behaviours of the code that the model keeps as written:

- `createSession` writes unconditionally. A new session whose random id equals a live
  one replaces it, including its removed-names set. This is the only operation that can
  lift a ban. Every other operation ensures `BansKept`.
- A poll's close timer holds only the session id. When it fires, it clears whatever poll
  is active, even one created after it, and it emits `poll:end` even if the session is
  gone.
- The remove handler binds the whole `{ targetSocketId, users }` object as the kick
  target. So `session:kicked` is emitted to a room named by that object, and no socket
  is in that room. The removed student is never told.
- `cleanupOnDisconnect` scans sessions in insertion order and acts only on the first
  session whose teacher is the socket, or that has the socket as a student with a
  non-empty name.
- JavaScript truthiness is explicit. A student name or socket id is falsy exactly when
  it is the empty string. A student whose name is empty cannot answer. A disconnect
  scan does not stop at such a student.
- Poll questions, options and durations are not validated, and an answer need not be
  one of the options.

The code does not make session ids unique, validate poll questions or options, check
that a timer still closes its own poll, index connections for disconnects, or keep a
history of closed polls, and neither does the model.

## Model

| member | source | states |
|---|---|---|
| `AssocLists.Lookup` | backend/src/models/sessionStore.js:18 | reading a key finds the value stored under it, and finds nothing exactly when the key is absent |
| `AssocLists.Put` | backend/src/services/sessionsServices.js:18 | assignment keeps an existing key's position and appends a new key. The key then maps to the new value, every other key is unchanged, and keys stay distinct |
| `AssocLists.Values` | backend/src/services/sessionsServices.js:24 | `Object.values` has one value per entry, in insertion order: pairing it with the keys gives back the entries |
| `AssocLists.Delete` | backend/src/services/sessionsServices.js:76 | `delete` gives exactly the entries whose key differs, in their original order (`Without`), so the key is gone, every other lookup is unchanged, and the object shrinks by one when the key was present |
| `SessionStore.ActivePoll` | backend/src/services/sessionsServices.js:51-52 | the active poll exists exactly when the active index is set and designates a poll, and then it is `polls[activePollIndex]` |
| `SessionStore.FreshSession` | backend/src/models/sessionStore.js:7-13 | a new record is well formed and owned by the teacher, with no students, no bans, no polls and no active poll |
| `SessionStore.RoomId` | backend/src/models/sessionStore.js:6 | an id is `room-` followed by decimal digits whose value is the drawn number |
| `SessionStore.Decimal` | backend/src/models/sessionStore.js:6 | the number in the id is written as decimal digits with no leading zero |
| `SessionStore.DecimalRoundTrip` | backend/src/models/sessionStore.js:6 | reading the digits back gives the number |
| `SessionStore.RoomIdShape` | backend/src/models/sessionStore.js:6 | an id is `room-` followed by exactly four digits that spell the drawn number in 1000..9999 |
| `SessionStore.Store.constructor` | backend/src/models/sessionStore.js:3 | the store starts with no sessions |
| `SessionStore.Store.Get` | backend/src/models/sessionStore.js:17-19 | `get` returns the stored record exactly when the id is present; it only reads |
| `SessionStore.Store.CreateSession` | backend/src/models/sessionStore.js:5-15 | returns `room-` and the suffix. Afterwards `get(id)` is a fresh record: the teacher id, no students, nothing removed, no polls, no active index. It overwrites an existing id in place, and every other session is unchanged |
| `SessionStore.Store.DeleteSession` | backend/src/models/sessionStore.js:21-23 | afterwards `get(id)` is absent and every other session is unchanged |
| `SessionsServices.Message` | backend/src/services/sessionsServices.js:15-64 | every thrown error carries a non-empty message |
| `SessionsServices.MessageIdentifiesError` | backend/src/services/sessionsServices.js:49-55 | two errors have the same message exactly when they are the same error |
| `SessionsServices.Admits` | backend/src/services/sessionsServices.js:13-14 | a join is admitted exactly when the session exists and the name is not in its removed set |
| `SessionsServices.StudentName` | backend/src/services/sessionsServices.js:54-55 | a socket has a student name exactly when it is in the roster under a truthy (non-empty) name |
| `SessionsServices.BanIsPermanent` | backend/src/services/sessionsServices.js:13-16 | across any run of ban-keeping steps during which the session exists, a removed name stays removed and its join is refused |
| `SessionsServices.TeacherInit` | backend/src/services/sessionsServices.js:5-9 | the calling socket owns a fresh session under the new id |
| `SessionsServices.StudentJoin` | backend/src/services/sessionsServices.js:12-25 | fails with no change exactly when the session is absent or the name is removed. Otherwise it sets `students[socketId] = name` and returns the roster values and the active poll, or none |
| `SessionsServices.CreatePoll` | backend/src/services/sessionsServices.js:28-44 | fails with no change when the session is absent. Otherwise it appends one unvalidated poll with no answers, stamped with the given time, and that poll becomes the active one |
| `SessionsServices.AnswerError` | backend/src/services/sessionsServices.js:48-55 | the errors come in this order: session not found, then no active poll, then socket not a named student |
| `SessionsServices.SubmitAnswer` | backend/src/services/sessionsServices.js:47-59 | fails with no change on any such error. Otherwise it sets only `answers[name] = answer` in the active poll (last write wins) and returns the answers |
| `SessionsServices.KickTarget` | backend/src/services/sessionsServices.js:69-72 | the target is the socket of the first roster entry with that name, or none when there is no such entry or its socket id is falsy |
| `SessionsServices.RemoveStudent` | backend/src/services/sessionsServices.js:62-84 | fails with no change when the session is absent. Otherwise it always adds the name to the removed set and deletes at most that one socket. It returns the target and the remaining roster |
| `SessionsServices.Claims` | backend/src/services/sessionsServices.js:89-93 | a session's teacher socket always matches, and any match is its teacher or a roster socket |
| `SessionsServices.ClaimsByMembership` | backend/src/services/sessionsServices.js:93 | in a roster with distinct sockets, a student match is exactly an entry for the socket with a non-empty name |
| `SessionsServices.StudentLeaveKeepsStore` | backend/src/services/sessionsServices.js:93-94 | deleting a student's roster entry keeps the store well formed and keeps every ban |
| `SessionsServices.FirstClaim` | backend/src/services/sessionsServices.js:88-101 | finds the first session, in insertion order, whose teacher is the socket or which has it as a named student, or none if no session does |
| `SessionsServices.CleanupOnDisconnect` | backend/src/services/sessionsServices.js:87-103 | only the first claiming session changes. If the socket is its teacher, the session is deleted and `sessionEnd` returned. Otherwise that one roster entry is deleted and `studentLeave` returned with the remaining roster. With no claim it returns null and changes nothing |
| `PollHandlers.Bump` | backend/src/sockets/pollHandlers.js:14-15 | one step adds the choice as a key, raises its count by one, and leaves every other count alone |
| `PollHandlers.TallyFrom` | backend/src/sockets/pollHandlers.js:13-16 | the fold's keys are the accumulator's keys and the choices |
| `PollHandlers.TallyFromCounts` | backend/src/sockets/pollHandlers.js:12-17 | the fold adds each choice's occurrences to what the accumulator held |
| `PollHandlers.Tally` | backend/src/sockets/pollHandlers.js:12-17 | a choice is counted exactly when someone chose it, and its count is the number of answers equal to it |
| `PollHandlers.TallySumsToAnswerCount` | backend/src/sockets/pollHandlers.js:12-17 | the counts sum to the number of answer entries |
| `PollHandlers.ResubmissionMovesOneVote` | backend/src/services/sessionsServices.js:57-58 | re-answering moves one vote from the previous choice to the new one and leaves every other count alone |
| `PollHandlers.ClassroomScenario` | backend/src/sockets/pollHandlers.js:12-17 | answers A, B, A tally to {A: 2, B: 1}; after the first student switches to B, to {A: 1, B: 2} |
| `PollHandlers.ViewOf` | backend/src/sockets/pollHandlers.js:40-49 | a late joiner sees the poll's question, options and duration with tallied counts, never the name-to-choice map |
| `PollHandlers.OnCreateSession` | backend/src/sockets/pollHandlers.js:21-28 | acknowledges `{ sessionId }` with the id the store created |
| `PollHandlers.OnJoinSession` | backend/src/sockets/pollHandlers.js:31-56 | on success, broadcasts the new roster to the room, then acknowledges with the active poll's tallied view. On failure it sends only `{ success: false, message }` and changes nothing |
| `PollHandlers.OnCreatePoll` | backend/src/sockets/pollHandlers.js:59-76 | on success, broadcasts `poll:new`, acknowledges `{ success: true, poll }` when a callback was passed, and sets a timer for the duration times 1000 ms. On failure it acknowledges `{ success: false, message }` and sets no timer |
| `PollHandlers.FirePollTimer` | backend/src/sockets/pollHandlers.js:66-70 | clears the active poll of the session if it still exists, whichever poll that is, and emits `poll:end` to the room in every case |
| `PollHandlers.OnSubmitAnswer` | backend/src/sockets/pollHandlers.js:79-94 | on success, broadcasts the tally of the updated answers. On failure it emits `error` to the submitting socket only and changes nothing |
| `PollHandlers.OnRemoveStudent` | backend/src/sockets/pollHandlers.js:97-109 | emits `session:kicked` to a room named by the returned object, then broadcasts the remaining roster. A missing session gives `error` to the caller only |
| `PollHandlers.OnDisconnect` | backend/src/sockets/pollHandlers.js:112-123 | the teacher leaving gives `session:end` to the room, and a student leaving gives the remaining roster. No match sends nothing |
| `Scenarios.StaleTimerClosesNewerPoll` | backend/src/sockets/pollHandlers.js:66-70 | the first poll's timer, firing after a second poll was created, leaves the session with no active poll |
| `Scenarios.RemovedStudentCannotRejoin` | backend/src/services/sessionsServices.js:13-16 | join, removal, disconnect, then join again under the same name: the last join is refused |
| `Scenarios.CollidingSessionLiftsBan` | backend/src/models/sessionStore.js:6-13 | a name banned from a session is admitted again once a new session draws the same id and replaces the record |

## Left out

- Socket.IO transport is not modelled: connections, `socket.join`, room membership and message delivery. A handler returns the messages it would emit, so the model does not say which sockets are in a room.
- `backend/src/sockets/index.js` and `backend/src/app.js` are not modelled: they are network and HTTP setup, and index.js's extra disconnect handler is empty.
- `Math.random` is not modelled: the drawn number is the `suffix` parameter, required to lie in 1000..9999 as the draw guarantees.
- `Date.now()` is not modelled: the poll's start time is the `now` parameter.
- `setTimeout` scheduling is not modelled: a handler returns the timer, and the caller decides when `FirePollTimer` runs.
- The chat relay is not modelled: no backend handler for it exists.
- The frontend is not modelled: pages, components and client-side state are UI.
- The `catch` branch of `teacher:create-session` is not modelled: `createSession` cannot throw, so it is unreachable.
- The join and create-session handlers assume an acknowledgement callback: they call it without checking. Create-poll checks for one, and `hasAck` models that.
- Client data is not modelled as arbitrary JSON: question, options, names and answers are strings, and durations are integers.
- JavaScript's coercion of non-string names, answers and ids, and their truthiness, is not modelled.
- Keys inherited from `Object.prototype` (such as `constructor` or `__proto__`) are not modelled. Used as a session id, name or choice, such a key behaves differently in the source.
- Object key order for integer-like keys is not modelled: JavaScript lists those first, in numeric order. Socket ids and `room-` ids are never integer-like, and a tally's counts do not depend on order.
- Session and poll records are values that the methods replace, not shared heap objects. The source's handlers read each returned object before any later event changes it, so the aliasing is never observed.

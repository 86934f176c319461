/**
 * The business rules over the store: creating a session, admitting a student
 * (with the permanent ban list), creating a poll, recording an answer,
 * removing a student and cleaning up after a lost connection. Every operation
 * changes the session record in place.
 */
module SessionsServices {
  import opened Common
  import opened AssocLists
  import opened SessionStore

  /** The errors the services throw. */
  datatype Error = InvalidSessionOrRemoved | SessionNotFound | NoActivePoll | StudentNotInSession

  /** `err.message` of each thrown error. */
  function Message(e: Error): (m: string)
    ensures |m| > 0
  {
    match e
    case InvalidSessionOrRemoved => "Invalid session or removed user"
    case SessionNotFound => "Session not found"
    case NoActivePoll => "No active poll"
    case StudentNotInSession => "Student not in session"
  }

  /** A client can tell the errors apart: different errors carry different messages. */
  lemma MessageIdentifiesError(e1: Error, e2: Error)
    ensures Message(e1) == Message(e2) <==> e1 == e2
  {
  }

  /** What `studentJoin` returns: the roster names and the active poll, if any. */
  datatype Joined = Joined(users: seq<string>, latestPoll: Option<Poll>)

  /** What `removeStudent` returns: `{ targetSocketId, users }`. */
  datatype Removal = Removal(targetSocketId: Option<string>, users: seq<string>)

  /** What `cleanupOnDisconnect` returns when it found the socket. */
  datatype Departure = SessionEnd(sessionId: string) | StudentLeave(sessionId: string, users: seq<string>)

  /** JavaScript truthiness of a string: only the empty string is falsy. */
  predicate Truthy(s: string)
  {
    s != ""
  }

  /** `sess.students[socketId]` when it is truthy: the name the socket answers under. */
  function StudentName(s: Session, socketId: string): (n: Option<string>)
    ensures n.Some? <==> socketId in Keys(s.students) && Truthy(Lookup(s.students, socketId).value)
    ensures n.Some? ==> (socketId, n.value) in s.students && Truthy(n.value)
  {
    match Lookup(s.students, socketId)
    case Some(name) => if Truthy(name) then Some(name) else None
    case None => None
  }

  /** No session that is still there has lost a name from its removed set. */
  ghost predicate BansKept(before: seq<(string, Session)>, after: seq<(string, Session)>)
  {
    forall id :: id in Keys(after) ==> RemovedIn(before, id) <= RemovedIn(after, id)
  }

  /** The admission rule of `studentJoin`: the session exists and `name` is not banned from it. */
  predicate Admits(sessions: seq<(string, Session)>, sessionId: string, name: string)
    ensures Admits(sessions, sessionId, name) <==> sessionId in Keys(sessions) && name !in RemovedIn(sessions, sessionId)
  {
    match Lookup(sessions, sessionId)
    case Some(s) => name !in s.removed
    case None => false
  }

  /**
   * A banned name stays banned: along any run of operations that each keep
   * the bans, and during which the session exists throughout, a name that was
   * in the removed set at the start is refused at the end.
   */
  lemma {:induction false} BanIsPermanent(run: seq<seq<(string, Session)>>, sessionId: string, name: string)
    requires |run| > 0
    requires forall k :: 0 <= k < |run| - 1 ==> BansKept(run[k], run[k + 1])
    requires forall k :: 0 <= k < |run| ==> sessionId in Keys(run[k])
    requires name in RemovedIn(run[0], sessionId)
    ensures name in RemovedIn(run[|run| - 1], sessionId)
    ensures !Admits(run[|run| - 1], sessionId, name)
  {
    if |run| > 1 {
      BanIsPermanent(run[..|run| - 1], sessionId, name);
      assert BansKept(run[|run| - 2], run[|run| - 1]);
    }
  }

  /** `teacherInit`: the teacher's socket id becomes the owner of a new session. */
  method TeacherInit(store: Store, socketId: string, suffix: nat) returns (sessionId: string)
    requires store.Valid()
    requires 1000 <= suffix <= 9999
    modifies store
    ensures store.Valid()
    ensures sessionId == RoomId(suffix)
    ensures store.Get(sessionId) == Some(FreshSession(socketId))
    ensures sessionId !in Keys(old(store.sessions)) ==> BansKept(old(store.sessions), store.sessions)
    ensures store.sessions == Put(old(store.sessions), sessionId, FreshSession(socketId))
  {
    sessionId := store.CreateSession(socketId, suffix);
  }

  /** `studentJoin`: admit `name` on `socketId` unless the session is missing or the name is banned. */
  method StudentJoin(store: Store, name: string, sessionId: string, socketId: string)
    returns (r: Result<Joined, Error>)
    requires store.Valid()
    modifies store
    ensures store.Valid() && BansKept(old(store.sessions), store.sessions)
    ensures r.Success? <==> Admits(old(store.sessions), sessionId, name)
    ensures r.Failure? ==> r.error == InvalidSessionOrRemoved && store.sessions == old(store.sessions)
    ensures r.Success? ==>
      var s := Lookup(old(store.sessions), sessionId).value;
      var s' := s.(students := Put(s.students, socketId, name));
      && store.sessions == Put(old(store.sessions), sessionId, s')
      && Lookup(s'.students, socketId) == Some(name)
      && r.value.users == Values(s'.students)
      && r.value.latestPoll == ActivePoll(s)
  {
    var sess := store.Get(sessionId);
    if sess.None? || name in sess.value.removed {
      return Failure(InvalidSessionOrRemoved);
    }
    var s := sess.value;
    s := s.(students := Put(s.students, socketId, name));
    store.sessions := Put(store.sessions, sessionId, s);
    var latestPoll := if s.activePollIndex.Some? then Some(s.polls[s.activePollIndex.value]) else None;
    r := Success(Joined(Values(s.students), latestPoll));
  }

  /** `createPoll`: append a poll with no answers and make it the active one. */
  method CreatePoll(store: Store, sessionId: string, question: string, options: seq<string>, duration: int, now: int)
    returns (r: Result<Poll, Error>)
    requires store.Valid()
    modifies store
    ensures store.Valid() && BansKept(old(store.sessions), store.sessions)
    ensures r.Failure? <==> sessionId !in Keys(old(store.sessions))
    ensures r.Failure? ==> r.error == SessionNotFound && store.sessions == old(store.sessions)
    ensures r.Success? ==>
      var s := Lookup(old(store.sessions), sessionId).value;
      && r.value == Poll(question, options, duration, [], now)
      && store.sessions == Put(old(store.sessions), sessionId,
           s.(polls := s.polls + [r.value], activePollIndex := Some(|s.polls|)))
      && ActivePoll(Lookup(store.sessions, sessionId).value) == Some(r.value)
  {
    var sess := store.Get(sessionId);
    if sess.None? {
      return Failure(SessionNotFound);
    }
    var s := sess.value;
    var poll := Poll(question, options, duration, [], now);
    s := s.(polls := s.polls + [poll]);
    s := s.(activePollIndex := Some(|s.polls| - 1));
    store.sessions := Put(store.sessions, sessionId, s);
    r := Success(poll);
  }

  /** Which error `submitAnswer` throws, in the order it checks. */
  function AnswerError(sessions: seq<(string, Session)>, sessionId: string, socketId: string): (e: Option<Error>)
    ensures e == Some(SessionNotFound) <==> sessionId !in Keys(sessions)
    ensures e == Some(NoActivePoll) <==>
      sessionId in Keys(sessions) && ActivePoll(Lookup(sessions, sessionId).value).None?
    ensures e == Some(StudentNotInSession) <==>
      && sessionId in Keys(sessions)
      && ActivePoll(Lookup(sessions, sessionId).value).Some?
      && StudentName(Lookup(sessions, sessionId).value, socketId).None?
    ensures e.None? || e.value in {SessionNotFound, NoActivePoll, StudentNotInSession}
  {
    match Lookup(sessions, sessionId)
    case None => Some(SessionNotFound)
    case Some(s) =>
      if ActivePoll(s).None? then Some(NoActivePoll)
      else if StudentName(s, socketId).None? then Some(StudentNotInSession)
      else None
  }

  /** `submitAnswer`: record `answer` under the socket's student name in the active poll. */
  method SubmitAnswer(store: Store, sessionId: string, socketId: string, answer: string)
    returns (r: Result<seq<(string, string)>, Error>)
    requires store.Valid()
    modifies store
    ensures store.Valid() && BansKept(old(store.sessions), store.sessions)
    ensures r.Failure? <==> AnswerError(old(store.sessions), sessionId, socketId).Some?
    ensures r.Failure? ==>
      && AnswerError(old(store.sessions), sessionId, socketId) == Some(r.error)
      && store.sessions == old(store.sessions)
    ensures r.Success? ==>
      var s := Lookup(old(store.sessions), sessionId).value;
      var i := s.activePollIndex.value;
      var name := StudentName(s, socketId).value;
      var p := s.polls[i].(answers := Put(s.polls[i].answers, name, answer));
      && store.sessions == Put(old(store.sessions), sessionId, s.(polls := s.polls[i := p]))
      && r.value == p.answers
      && Lookup(r.value, name) == Some(answer)
      && (forall other :: other != name ==> Lookup(r.value, other) == Lookup(s.polls[i].answers, other))
  {
    var sess := store.Get(sessionId);
    if sess.None? {
      return Failure(SessionNotFound);
    }
    var s := sess.value;
    var poll := ActivePoll(s);
    if poll.None? {
      return Failure(NoActivePoll);
    }
    var studentName := Lookup(s.students, socketId);
    if studentName.None? || !Truthy(studentName.value) {
      return Failure(StudentNotInSession);
    }
    var p := poll.value.(answers := Put(poll.value.answers, studentName.value, answer));
    s := s.(polls := s.polls[s.activePollIndex.value := p]);
    store.sessions := Put(store.sessions, sessionId, s);
    r := Success(p.answers);
  }

  /**
   * `Object.entries(students).find(([, n]) => n === name)?.[0] || null`: the
   * socket id of the first entry named `name`, unless that id is falsy.
   */
  function KickTarget(students: seq<(string, string)>, name: string): (t: Option<string>)
    ensures t.Some? ==>
      exists i :: 0 <= i < |students| && students[i] == (t.value, name) && name !in Values(students[..i])
    ensures t.Some? ==> Truthy(t.value)
    ensures t.None? ==>
      forall i :: 0 <= i < |students| && students[i].1 == name && name !in Values(students[..i]) ==>
        !Truthy(students[i].0)
  {
    match FirstIndex(Values(students), name)
    case None =>
      assert forall i :: 0 <= i < |students| ==> Values(students)[i] == students[i].1;
      None
    case Some(i) =>
      assert Values(students)[..i] == Values(students[..i]);
      forall j | 0 <= j < |students| && students[j].1 == name && name !in Values(students[..j])
        ensures j == i
      {
        assert forall k {:trigger students[k]} :: 0 <= k < i ==> Values(students[..i])[k] == students[k].1;
        assert forall k {:trigger students[k]} :: 0 <= k < j ==> Values(students[..j])[k] == students[k].1;
      }
      if Truthy(students[i].0) then Some(students[i].0) else None
  }

  /** `removeStudent`: ban `name` for good, and disconnect the first socket that holds it. */
  method RemoveStudent(store: Store, sessionId: string, name: string) returns (r: Result<Removal, Error>)
    requires store.Valid()
    modifies store
    ensures store.Valid() && BansKept(old(store.sessions), store.sessions)
    ensures r.Failure? <==> sessionId !in Keys(old(store.sessions))
    ensures r.Failure? ==> r.error == SessionNotFound && store.sessions == old(store.sessions)
    ensures r.Success? ==>
      var s := Lookup(old(store.sessions), sessionId).value;
      var target := KickTarget(s.students, name);
      var students := if target.Some? then Delete(s.students, target.value) else s.students;
      && store.sessions == Put(old(store.sessions), sessionId, s.(removed := s.removed + {name}, students := students))
      && RemovedIn(store.sessions, sessionId) == s.removed + {name}
      && r.value == Removal(target, Values(students))
      && |students| >= |s.students| - 1
  {
    var sess := store.Get(sessionId);
    if sess.None? {
      return Failure(SessionNotFound);
    }
    var s := sess.value;
    s := s.(removed := s.removed + {name});
    var targetSocketId := KickTarget(s.students, name);
    if targetSocketId.Some? {
      s := s.(students := Delete(s.students, targetSocketId.value));
    }
    store.sessions := Put(store.sessions, sessionId, s);
    r := Success(Removal(targetSocketId, Values(s.students)));
  }

  /** The disconnect scan's test for one session: the socket is its teacher or a named student. */
  predicate Claims(s: Session, socketId: string)
    ensures s.teacherId == socketId ==> Claims(s, socketId)
    ensures Claims(s, socketId) ==> s.teacherId == socketId || socketId in Keys(s.students)
  {
    s.teacherId == socketId || StudentName(s, socketId).Some?
  }

  /** In a roster with distinct sockets, a student claim is an entry for the socket with a non-empty name. */
  lemma ClaimsByMembership(s: Session, socketId: string)
    requires DistinctKeys(s.students)
    ensures Claims(s, socketId) <==> s.teacherId == socketId || exists name :: (socketId, name) in s.students && Truthy(name)
  {
    LookupIsMembership(s.students, socketId);
  }

  /** The position of the first session, in insertion order, that claims the socket. */
  function FirstClaim(sessions: seq<(string, Session)>, socketId: string): (r: Option<nat>)
    ensures r.Some? ==>
      && r.value < |sessions|
      && Claims(sessions[r.value].1, socketId)
      && forall j :: 0 <= j < r.value ==> !Claims(sessions[j].1, socketId)
    ensures r.None? ==> forall j :: 0 <= j < |sessions| ==> !Claims(sessions[j].1, socketId)
  {
    if sessions == [] then None
    else if Claims(sessions[0].1, socketId) then Some(0)
    else
      match FirstClaim(sessions[1..], socketId)
      case None => None
      case Some(i) => Some(i + 1)
  }

  /** Deleting one roster entry of a stored session keeps the store well formed and every ban. */
  lemma StudentLeaveKeepsStore(sessions: seq<(string, Session)>, i: nat, socketId: string)
    requires StoreValid(sessions) && i < |sessions|
    ensures var (id, s) := sessions[i];
      var after := Put(sessions, id, s.(students := Delete(s.students, socketId)));
      StoreValid(after) && BansKept(sessions, after) && FirstIndex(Keys(sessions), id) == Some(i)
  {
    var (id, s) := sessions[i];
    assert sessions[i] in sessions;
    var s' := s.(students := Delete(s.students, socketId));
    assert SessionValid(s');
    assert Keys(sessions)[i] == id;
    var after := Put(sessions, id, s');
    forall k | k in Keys(after) ensures RemovedIn(sessions, k) <= RemovedIn(after, k) {
      if k == id {
        assert Lookup(sessions, id) == Some(s);
      }
    }
  }

  /**
   * `cleanupOnDisconnect`: scan the sessions in insertion order and act on the
   * first that claims the socket. Its teacher leaving deletes the session; a
   * student leaving deletes that one roster entry.
   */
  method CleanupOnDisconnect(store: Store, socketId: string) returns (r: Option<Departure>)
    requires store.Valid()
    modifies store
    ensures store.Valid() && BansKept(old(store.sessions), store.sessions)
    ensures r.None? <==> FirstClaim(old(store.sessions), socketId).None?
    ensures r.None? ==> store.sessions == old(store.sessions)
    ensures r.Some? ==>
      var (id, s) := old(store.sessions)[FirstClaim(old(store.sessions), socketId).value];
      if s.teacherId == socketId then
        && r.value == SessionEnd(id)
        && store.sessions == Delete(old(store.sessions), id)
      else
        var s' := s.(students := Delete(s.students, socketId));
        && r.value == StudentLeave(id, Values(s'.students))
        && store.sessions == Put(old(store.sessions), id, s')
  {
    var i := 0;
    while i < |store.sessions|
      invariant 0 <= i <= |store.sessions|
      invariant store.sessions == old(store.sessions)
      invariant forall j :: 0 <= j < i ==> !Claims(store.sessions[j].1, socketId)
    {
      var (id, sess) := store.sessions[i];
      if sess.teacherId == socketId {
        store.DeleteSession(id);
        return Some(SessionEnd(id));
      }
      var studentName := Lookup(sess.students, socketId);
      if studentName.Some? && Truthy(studentName.value) {
        StudentLeaveKeepsStore(store.sessions, i, socketId);
        sess := sess.(students := Delete(sess.students, socketId));
        store.sessions := Put(store.sessions, id, sess);
        return Some(StudentLeave(id, Values(sess.students)));
      }
      i := i + 1;
    }
    return None;
  }
}

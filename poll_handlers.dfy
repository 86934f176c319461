/**
 * The socket event handlers. Each inbound event runs to completion: it calls
 * a service, and turns the result or the thrown error into outbound messages,
 * either to one socket (an acknowledgement or a direct emit) or to every
 * socket in a room. The transport itself is not modelled: a handler returns
 * the messages it would emit, in order.
 */
module PollHandlers {
  import opened Common
  import opened AssocLists
  import opened SessionStore
  import opened SessionsServices

  // ---------------------------------------------------------------------------
  // tally: { name: choice } to { choice: count }
  // ---------------------------------------------------------------------------

  /** One step of the `reduce`: `acc[choice] = (acc[choice] || 0) + 1`. */
  function Bump(acc: map<string, nat>, choice: string): (r: map<string, nat>)
    ensures r.Keys == acc.Keys + {choice}
    ensures CountOf(r, choice) == CountOf(acc, choice) + 1
    ensures forall c :: c != choice ==> CountOf(r, c) == CountOf(acc, c)
  {
    acc[choice := (if choice in acc then acc[choice] else 0) + 1]
  }

  /** The `reduce` over the remaining choices, from accumulator `acc`. */
  function TallyFrom(acc: map<string, nat>, choices: seq<string>): (r: map<string, nat>)
    ensures forall c :: c in r <==> c in acc || c in choices
    decreases |choices|
  {
    if choices == [] then acc else TallyFrom(Bump(acc, choices[0]), choices[1..])
  }

  /** How many votes `counts` gives `choice` (0 when the choice is absent). */
  function CountOf(counts: map<string, nat>, choice: string): nat
  {
    if choice in counts then counts[choice] else 0
  }

  /** The fold adds the occurrences of each choice to what the accumulator held. */
  lemma {:induction false} TallyFromCounts(acc: map<string, nat>, choices: seq<string>)
    ensures forall c :: CountOf(TallyFrom(acc, choices), c) == CountOf(acc, c) + multiset(choices)[c]
    decreases |choices|
  {
    if choices != [] {
      TallyFromCounts(Bump(acc, choices[0]), choices[1..]);
      assert choices == [choices[0]] + choices[1..];
      assert multiset(choices) == multiset{choices[0]} + multiset(choices[1..]);
    }
  }

  /**
   * `tally(rawAnswers)`: each chosen option with the number of students who
   * chose it. Options nobody chose are absent.
   */
  function Tally(rawAnswers: seq<(string, string)>): (counts: map<string, nat>)
    ensures forall c :: c in counts <==> c in Values(rawAnswers)
    ensures forall c :: CountOf(counts, c) == multiset(Values(rawAnswers))[c]
  {
    TallyFromCounts(map[], Values(rawAnswers));
    TallyFrom(map[], Values(rawAnswers))
  }

  /** The total of all counts in a map. */
  ghost function SumCounts(m: map<string, nat>): nat
    decreases |m|
  {
    if m == map[] then 0
    else
      var k :| k in m;
      assert |m - {k}| < |m| by { assert (m - {k}).Keys < m.Keys; }
      m[k] + SumCounts(m - {k})
  }

  /** The sum does not depend on which key is taken out first. */
  lemma SumCountsRemove(m: map<string, nat>, k: string)
    requires k in m
    ensures SumCounts(m) == m[k] + SumCounts(m - {k})
    decreases |m|
  {
    var j :| j in m && SumCounts(m) == m[j] + SumCounts(m - {j});
    if j != k {
      assert |m - {j}| < |m| by { assert (m - {j}).Keys < m.Keys; }
      assert |m - {k}| < |m| by { assert (m - {k}).Keys < m.Keys; }
      SumCountsRemove(m - {j}, k);
      SumCountsRemove(m - {k}, j);
      assert m - {j} - {k} == m - {k} - {j};
    }
  }

  lemma SumCountsBump(acc: map<string, nat>, choice: string)
    ensures SumCounts(Bump(acc, choice)) == SumCounts(acc) + 1
  {
    var b := Bump(acc, choice);
    SumCountsRemove(b, choice);
    if choice in acc {
      SumCountsRemove(acc, choice);
      assert b - {choice} == acc - {choice};
    } else {
      assert b - {choice} == acc;
    }
  }

  lemma {:induction false} SumTallyFrom(acc: map<string, nat>, choices: seq<string>)
    ensures SumCounts(TallyFrom(acc, choices)) == SumCounts(acc) + |choices|
    decreases |choices|
  {
    if choices != [] {
      SumCountsBump(acc, choices[0]);
      SumTallyFrom(Bump(acc, choices[0]), choices[1..]);
    }
  }

  /** The counts of a tally add up to the number of students who answered. */
  lemma TallySumsToAnswerCount(rawAnswers: seq<(string, string)>)
    ensures SumCounts(Tally(rawAnswers)) == |rawAnswers|
  {
    SumTallyFrom(map[], Values(rawAnswers));
  }

  /**
   * Last write wins: when `name` answers `choice`, the tally gains one vote
   * for `choice` and loses the vote for the name's previous answer, if it had
   * one; every other count is unchanged.
   */
  lemma ResubmissionMovesOneVote(rawAnswers: seq<(string, string)>, name: string, choice: string)
    ensures forall c ::
      CountOf(Tally(Put(rawAnswers, name, choice)), c) ==
        CountOf(Tally(rawAnswers), c)
        + (if c == choice then 1 else 0)
        - (if Lookup(rawAnswers, name) == Some(c) then 1 else 0)
  {
    var after := Put(rawAnswers, name, choice);
    if name in Keys(rawAnswers) {
      var i := FirstIndex(Keys(rawAnswers), name).value;
      assert Values(rawAnswers)[i] == Lookup(rawAnswers, name).value;
      assert multiset(Values(after)) ==
        multiset(Values(rawAnswers)) - multiset{Values(rawAnswers)[i]} + multiset{choice};
    } else {
      assert multiset(Values(after)) == multiset(Values(rawAnswers)) + multiset{choice};
    }
  }

  /** Three students vote A, B, A; then the first switches to B. */
  lemma ClassroomScenario()
    ensures Tally([("P1", "A"), ("P2", "B"), ("P3", "A")]) == map["A" := 2, "B" := 1]
    ensures Tally(Put([("P1", "A"), ("P2", "B"), ("P3", "A")], "P1", "B")) == map["A" := 1, "B" := 2]
  {
    var raw := [("P1", "A"), ("P2", "B"), ("P3", "A")];
    assert Values(raw) == ["A", "B", "A"];
    assert TallyFrom(map[], ["A", "B", "A"]) == map["A" := 2, "B" := 1] by {
      assert ["A", "B", "A"][1..] == ["B", "A"] && ["B", "A"][1..] == ["A"] && ["A"][1..] == [];
      assert Bump(map[], "A") == map["A" := 1];
      assert Bump(map["A" := 1], "B") == map["A" := 1, "B" := 1];
      assert Bump(map["A" := 1, "B" := 1], "A") == map["A" := 2, "B" := 1];
    }
    assert Put(raw, "P1", "B") == [("P1", "B"), ("P2", "B"), ("P3", "A")];
    assert Values(Put(raw, "P1", "B")) == ["B", "B", "A"];
    assert TallyFrom(map[], ["B", "B", "A"]) == map["A" := 1, "B" := 2] by {
      assert ["B", "B", "A"][1..] == ["B", "A"] && ["B", "A"][1..] == ["A"] && ["A"][1..] == [];
      assert Bump(map[], "B") == map["B" := 1];
      assert Bump(map["B" := 1], "B") == map["B" := 2];
      assert Bump(map["B" := 2], "A") == map["A" := 1, "B" := 2];
    }
  }

  // ---------------------------------------------------------------------------
  // Outbound messages
  // ---------------------------------------------------------------------------

  /**
   * Who receives an emit: every socket in a room (`io.to(name)`, where each
   * socket is also alone in a room named by its id), the handling socket
   * itself (`socket.emit`), or a room named by a non-string value, which no
   * socket is ever in.
   */
  datatype Target = Room(name: string) | Caller(socketId: string) | RoomNamedByObject(removal: Removal)

  /** The poll a late joiner is shown: its counts, never who chose what. */
  datatype PollView = PollView(question: string, options: seq<string>, duration: int, answers: map<string, nat>)

  datatype Payload =
    | Nothing                             // an emit with no argument
    | SessionCreated(sessionId: string)   // { sessionId }
    | JoinAccepted(view: Option<PollView>) // { success: true } or { success: true, poll }
    | Rejected(message: string)           // { success: false, message }
    | PollAccepted(poll: Poll)            // { success: true, poll }
    | NewPoll(poll: Poll)                 // the poll object itself
    | Users(users: seq<string>)           // the roster names
    | Results(counts: map<string, nat>)   // a tally
    | ErrorReport(message: string)        // { message }

  /** An emit to a target, or a call of the event's acknowledgement callback. */
  datatype Outbound = Emit(target: Target, event: string, payload: Payload) | Ack(payload: Payload)

  /** A pending `setTimeout` for the poll close callback. */
  datatype Timer = Timer(sessionId: string, delayMs: int)

  /** What the join acknowledgement shows of the active poll. */
  function ViewOf(latestPoll: Option<Poll>): (v: Option<PollView>)
    ensures v.Some? <==> latestPoll.Some?
    ensures v.Some? ==>
      && v.value.question == latestPoll.value.question
      && v.value.options == latestPoll.value.options
      && v.value.duration == latestPoll.value.duration
      && (forall c :: CountOf(v.value.answers, c) == multiset(Values(latestPoll.value.answers))[c])
  {
    match latestPoll
    case None => None
    case Some(p) => Some(PollView(p.question, p.options, p.duration, Tally(p.answers)))
  }

  // ---------------------------------------------------------------------------
  // Handlers
  // ---------------------------------------------------------------------------

  /** 'teacher:create-session': the caller becomes the teacher of a new session. */
  method OnCreateSession(store: Store, socketId: string, suffix: nat) returns (out: seq<Outbound>)
    requires store.Valid()
    requires 1000 <= suffix <= 9999
    modifies store
    ensures store.Valid()
    ensures store.Get(RoomId(suffix)) == Some(FreshSession(socketId))
    ensures store.sessions == Put(old(store.sessions), RoomId(suffix), FreshSession(socketId))
    ensures out == [Ack(SessionCreated(RoomId(suffix)))]
  {
    var sessionId := TeacherInit(store, socketId, suffix);
    out := [Ack(SessionCreated(sessionId))];
  }

  /**
   * 'student:join-session': on success the room gets the new roster and the
   * caller the active poll with tallied counts; on failure only the caller
   * hears, and nothing changes.
   */
  method OnJoinSession(store: Store, socketId: string, sessionId: string, name: string)
    returns (out: seq<Outbound>)
    requires store.Valid()
    modifies store
    ensures store.Valid() && BansKept(old(store.sessions), store.sessions)
    ensures !Admits(old(store.sessions), sessionId, name) ==>
      && out == [Ack(Rejected(Message(InvalidSessionOrRemoved)))]
      && store.sessions == old(store.sessions)
    ensures Admits(old(store.sessions), sessionId, name) ==>
      var s := Lookup(old(store.sessions), sessionId).value;
      var s' := s.(students := Put(s.students, socketId, name));
      && store.sessions == Put(old(store.sessions), sessionId, s')
      && out == [Emit(Room(sessionId), "session:update-users", Users(Values(s'.students))),
                 Ack(JoinAccepted(ViewOf(ActivePoll(s))))]
  {
    var r := StudentJoin(store, name, sessionId, socketId);
    match r
    case Failure(e) =>
      out := [Ack(Rejected(Message(e)))];
    case Success(joined) =>
      out := [Emit(Room(sessionId), "session:update-users", Users(joined.users))];
      match joined.latestPoll
      case Some(p) =>
        out := out + [Ack(JoinAccepted(Some(PollView(p.question, p.options, p.duration, Tally(p.answers)))))];
      case None =>
        out := out + [Ack(JoinAccepted(None))];
  }

  /**
   * 'teacher:create-poll': on success the room gets the poll, the caller is
   * acknowledged (when it passed a callback), and the close timer is set for
   * the poll's duration in milliseconds.
   */
  method OnCreatePoll(store: Store, sessionId: string, question: string, options: seq<string>,
                      duration: int, now: int, hasAck: bool)
    returns (out: seq<Outbound>, timer: Option<Timer>)
    requires store.Valid()
    modifies store
    ensures store.Valid() && BansKept(old(store.sessions), store.sessions)
    ensures sessionId !in Keys(old(store.sessions)) ==>
      && out == (if hasAck then [Ack(Rejected(Message(SessionNotFound)))] else [])
      && timer == None
      && store.sessions == old(store.sessions)
    ensures sessionId in Keys(old(store.sessions)) ==>
      var s := Lookup(old(store.sessions), sessionId).value;
      var poll := Poll(question, options, duration, [], now);
      && store.sessions == Put(old(store.sessions), sessionId,
           s.(polls := s.polls + [poll], activePollIndex := Some(|s.polls|)))
      && ActivePoll(Lookup(store.sessions, sessionId).value) == Some(poll)
      && out == [Emit(Room(sessionId), "poll:new", NewPoll(poll))] + (if hasAck then [Ack(PollAccepted(poll))] else [])
      && timer == Some(Timer(sessionId, duration * 1000))
  {
    var r := CreatePoll(store, sessionId, question, options, duration, now);
    match r
    case Failure(e) =>
      out := if hasAck then [Ack(Rejected(Message(e)))] else [];
      timer := None;
    case Success(poll) =>
      out := [Emit(Room(sessionId), "poll:new", NewPoll(poll))];
      timer := Some(Timer(sessionId, duration * 1000));
      if hasAck {
        out := out + [Ack(PollAccepted(poll))];
      }
  }

  /**
   * The close callback of a poll's timer. It clears whatever poll is active
   * in the session, if the session is still there, and announces the end
   * to the room either way.
   */
  method FirePollTimer(store: Store, sessionId: string) returns (out: seq<Outbound>)
    requires store.Valid()
    modifies store
    ensures store.Valid() && BansKept(old(store.sessions), store.sessions)
    ensures sessionId !in Keys(old(store.sessions)) ==> store.sessions == old(store.sessions)
    ensures sessionId in Keys(old(store.sessions)) ==>
      && store.sessions == Put(old(store.sessions), sessionId,
           Lookup(old(store.sessions), sessionId).value.(activePollIndex := None))
      && ActivePoll(Lookup(store.sessions, sessionId).value).None?
    ensures out == [Emit(Room(sessionId), "poll:end", Nothing)]
  {
    var sess := store.Get(sessionId);
    if sess.Some? {
      store.sessions := Put(store.sessions, sessionId, sess.value.(activePollIndex := None));
    }
    out := [Emit(Room(sessionId), "poll:end", Nothing)];
  }

  /**
   * 'student:submit-answer': on success the room gets the new tally; an error
   * goes to the submitting socket only, and nothing changes.
   */
  method OnSubmitAnswer(store: Store, socketId: string, sessionId: string, answer: string)
    returns (out: seq<Outbound>)
    requires store.Valid()
    modifies store
    ensures store.Valid() && BansKept(old(store.sessions), store.sessions)
    ensures AnswerError(old(store.sessions), sessionId, socketId).Some? ==>
      && out == [Emit(Caller(socketId), "error",
                      ErrorReport(Message(AnswerError(old(store.sessions), sessionId, socketId).value)))]
      && store.sessions == old(store.sessions)
    ensures AnswerError(old(store.sessions), sessionId, socketId).None? ==>
      var s := Lookup(old(store.sessions), sessionId).value;
      var i := s.activePollIndex.value;
      var name := StudentName(s, socketId).value;
      var p := s.polls[i].(answers := Put(s.polls[i].answers, name, answer));
      && store.sessions == Put(old(store.sessions), sessionId, s.(polls := s.polls[i := p]))
      && out == [Emit(Room(sessionId), "poll:update-results", Results(Tally(p.answers)))]
  {
    var r := SubmitAnswer(store, sessionId, socketId, answer);
    match r
    case Failure(e) =>
      out := [Emit(Caller(socketId), "error", ErrorReport(Message(e)))];
    case Success(rawAnswers) =>
      var counts := Tally(rawAnswers);
      out := [Emit(Room(sessionId), "poll:update-results", Results(counts))];
  }

  /**
   * 'teacher:remove-student'. The handler binds the whole object that
   * `removeStudent` returns as the target, so 'session:kicked' goes to a room
   * named by that object rather than to the removed socket; then the room
   * gets the roster without the removed student.
   */
  method OnRemoveStudent(store: Store, socketId: string, sessionId: string, name: string)
    returns (out: seq<Outbound>)
    requires store.Valid()
    modifies store
    ensures store.Valid() && BansKept(old(store.sessions), store.sessions)
    ensures sessionId !in Keys(old(store.sessions)) ==>
      && out == [Emit(Caller(socketId), "error", ErrorReport(Message(SessionNotFound)))]
      && store.sessions == old(store.sessions)
    ensures sessionId in Keys(old(store.sessions)) ==>
      var s := Lookup(old(store.sessions), sessionId).value;
      var target := KickTarget(s.students, name);
      var students := if target.Some? then Delete(s.students, target.value) else s.students;
      && store.sessions == Put(old(store.sessions), sessionId, s.(removed := s.removed + {name}, students := students))
      && out == [Emit(RoomNamedByObject(Removal(target, Values(students))), "session:kicked", Nothing),
                 Emit(Room(sessionId), "session:update-users", Users(Values(students)))]
  {
    var r := RemoveStudent(store, sessionId, name);
    match r
    case Failure(e) =>
      out := [Emit(Caller(socketId), "error", ErrorReport(Message(e)))];
    case Success(targetSocketId) =>
      // an object is always truthy, so the kick branch always runs
      out := [Emit(RoomNamedByObject(targetSocketId), "session:kicked", Nothing)];
      var sess := store.Get(sessionId);
      out := out + [Emit(Room(sessionId), "session:update-users", Users(Values(sess.value.students)))];
  }

  /**
   * 'disconnect': the teacher leaving ends the session for its room; a
   * student leaving sends the room the shorter roster; otherwise nothing.
   */
  method OnDisconnect(store: Store, socketId: string) returns (out: seq<Outbound>)
    requires store.Valid()
    modifies store
    ensures store.Valid() && BansKept(old(store.sessions), store.sessions)
    ensures FirstClaim(old(store.sessions), socketId).None? ==>
      out == [] && store.sessions == old(store.sessions)
    ensures FirstClaim(old(store.sessions), socketId).Some? ==>
      var (id, s) := old(store.sessions)[FirstClaim(old(store.sessions), socketId).value];
      if s.teacherId == socketId then
        && store.sessions == Delete(old(store.sessions), id)
        && out == [Emit(Room(id), "session:end", Nothing)]
      else
        var students := Delete(s.students, socketId);
        && store.sessions == Put(old(store.sessions), id, s.(students := students))
        && out == [Emit(Room(id), "session:update-users", Users(Values(students)))]
  {
    var result := CleanupOnDisconnect(store, socketId);
    out := [];
    match result
    case None =>
    case Some(SessionEnd(id)) =>
      out := [Emit(Room(id), "session:end", Nothing)];
    case Some(StudentLeave(id, users)) =>
      out := [Emit(Room(id), "session:update-users", Users(users))];
  }
}

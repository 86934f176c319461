/**
 * Runs of several events in a row, proved from the handlers' contracts alone.
 */
module Scenarios {
  import opened Common
  import opened AssocLists
  import opened SessionStore
  import opened SessionsServices
  import opened PollHandlers

  /**
   * Two polls are created back to back and the first poll's timer fires while
   * the second is active. The timers carry only the session id, so the stale
   * timer ends the second poll.
   */
  method StaleTimerClosesNewerPoll(store: Store, sessionId: string) returns (first: Timer, second: Timer)
    requires store.Valid()
    requires sessionId in Keys(store.sessions)
    modifies store
    ensures store.Valid()
    ensures first == Timer(sessionId, 30000) && second == Timer(sessionId, 60000)
    ensures sessionId in Keys(store.sessions)
    ensures |Lookup(store.sessions, sessionId).value.polls| == |Lookup(old(store.sessions), sessionId).value.polls| + 2
    ensures ActivePoll(Lookup(store.sessions, sessionId).value).None?
  {
    var out1, t1 := OnCreatePoll(store, sessionId, "Q1", ["A", "B"], 30, 0, true);
    var out2, t2 := OnCreatePoll(store, sessionId, "Q2", ["C", "D"], 60, 5000, true);
    first, second := t1.value, t2.value;
    var out3 := FirePollTimer(store, first.sessionId);
  }

  /**
   * A student joins, is removed by the teacher, loses the connection and
   * tries to join again under the same name: the second join is refused,
   * whatever the disconnect did.
   */
  method RemovedStudentCannotRejoin(store: Store, teacherSocket: string, socketId: string,
                                    sessionId: string, name: string)
    returns (out: seq<Outbound>)
    requires store.Valid()
    requires sessionId in Keys(store.sessions)
    modifies store
    ensures store.Valid()
    ensures out == [Ack(Rejected(Message(InvalidSessionOrRemoved)))]
  {
    var joined := OnJoinSession(store, socketId, sessionId, name);
    var removed := OnRemoveStudent(store, teacherSocket, sessionId, name);
    ghost var afterRemove := store.sessions;
    assert name in RemovedIn(afterRemove, sessionId);
    var left := OnDisconnect(store, socketId);
    assert name in RemovedIn(afterRemove, sessionId) && BansKept(afterRemove, store.sessions);
    out := OnJoinSession(store, socketId, sessionId, name);
  }

  /**
   * A teacher bans a name, and a second teacher's new session draws the same
   * id. The unconditional write replaces the record, ban included, so the
   * banned name is admitted again.
   */
  method CollidingSessionLiftsBan(store: Store, teacherSocket: string, otherTeacherSocket: string,
                                  socketId: string, name: string, suffix: nat)
    returns (out: seq<Outbound>)
    requires store.Valid()
    requires 1000 <= suffix <= 9999
    modifies store
    ensures store.Valid()
    ensures out == [Emit(Room(RoomId(suffix)), "session:update-users", Users([name])), Ack(JoinAccepted(None))]
  {
    var created := OnCreateSession(store, teacherSocket, suffix);
    var removed := OnRemoveStudent(store, teacherSocket, RoomId(suffix), name);
    assert name in RemovedIn(store.sessions, RoomId(suffix));
    var recreated := OnCreateSession(store, otherTeacherSocket, suffix);
    assert Values(Put([], socketId, name)) == [name];
    out := OnJoinSession(store, socketId, RoomId(suffix), name);
  }
}

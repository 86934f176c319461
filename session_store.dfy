/**
 * The in-memory session store: a module-level object mapping each session id
 * to its session record, with `createSession`, `get` and `delete`.
 */
module SessionStore {
  import opened Common
  import opened AssocLists

  /** A poll: what was asked, and each student's latest answer by name. */
  datatype Poll = Poll(
    question: string,
    options: seq<string>,
    duration: int,
    answers: seq<(string, string)>,  // student name -> chosen option
    startedAt: int)

  /** A session record; `activePollIndex` is JavaScript's `number | null`. */
  datatype Session = Session(
    teacherId: string,
    students: seq<(string, string)>,  // socket id -> student name
    removed: set<string>,
    polls: seq<Poll>,
    activePollIndex: Option<nat>)

  /** The record `createSession` stores for a new session. */
  function FreshSession(teacherId: string): (s: Session)
    ensures SessionValid(s) && s.teacherId == teacherId
    ensures Keys(s.students) == [] && s.removed == {} && |s.polls| == 0
    ensures ActivePoll(s).None?
  {
    Session(teacherId, [], {}, [], None)
  }

  /** The poll the active index designates: `polls[activePollIndex]` when that is a poll. */
  function ActivePoll(s: Session): (p: Option<Poll>)
    ensures p.Some? <==> s.activePollIndex.Some? && s.activePollIndex.value < |s.polls|
    ensures p.Some? ==> p.value in s.polls
    ensures p.Some? ==> p.value == s.polls[s.activePollIndex.value]
  {
    match s.activePollIndex
    case Some(i) => if i < |s.polls| then Some(s.polls[i]) else None
    case None => None
  }

  /** The shape every reachable session record has. */
  ghost predicate SessionValid(s: Session)
  {
    && DistinctKeys(s.students)
    && (forall p :: p in s.polls ==> DistinctKeys(p.answers))
    && (s.activePollIndex.Some? ==> s.activePollIndex.value < |s.polls|)
  }

  /** The shape every reachable store has. */
  ghost predicate StoreValid(sessions: seq<(string, Session)>)
  {
    && DistinctKeys(sessions)
    && forall e :: e in sessions ==> SessionValid(e.1)
  }

  /** The removed-names set of session `id`, empty when there is no such session. */
  function RemovedIn(sessions: seq<(string, Session)>, id: string): set<string>
  {
    match Lookup(sessions, id)
    case Some(s) => s.removed
    case None => {}
  }

  /** The decimal digit for `d`. */
  function DigitChar(d: nat): (c: char)
    requires d < 10
    ensures '0' <= c <= '9' && (c as int) - ('0' as int) == d
  {
    ((d + '0' as int) as char)
  }

  predicate IsDigits(s: string)
  {
    forall i :: 0 <= i < |s| ==> '0' <= s[i] <= '9'
  }

  /** `String(n)` for a natural number: its decimal form, with no leading zero. */
  function Decimal(n: nat): (s: string)
    ensures |s| >= 1 && IsDigits(s)
    ensures s[0] == '0' ==> n == 0
    decreases n
  {
    if n < 10 then [DigitChar(n)] else Decimal(n / 10) + [DigitChar(n % 10)]
  }

  /** The number a string of decimal digits denotes. */
  function DigitsValue(s: string): nat
    requires IsDigits(s)
  {
    if s == [] then 0
    else DigitsValue(s[..|s| - 1]) * 10 + ((s[|s| - 1] as int) - ('0' as int))
  }

  lemma {:induction false} DecimalRoundTrip(n: nat)
    ensures DigitsValue(Decimal(n)) == n
    decreases n
  {
    if n >= 10 {
      var s := Decimal(n);
      assert s[..|s| - 1] == Decimal(n / 10);
      DecimalRoundTrip(n / 10);
    }
  }

  lemma DecimalOfFourDigits(n: nat)
    requires 1000 <= n <= 9999
    ensures |Decimal(n)| == 4
  {
    assert |Decimal(n / 1000)| == 1;
    assert |Decimal(n / 100)| == 2;
    assert |Decimal(n / 10)| == 3;
  }

  /** The id `createSession` builds: `room-` and the random suffix in decimal. */
  function RoomId(suffix: nat): (id: string)
    ensures |id| > 5 && id[..5] == "room-"
    ensures IsDigits(id[5..]) && DigitsValue(id[5..]) == suffix
  {
    DecimalRoundTrip(suffix);
    assert ("room-" + Decimal(suffix))[5..] == Decimal(suffix);
    "room-" + Decimal(suffix)
  }

  /** A room id is "room-" followed by exactly four digits that spell the suffix. */
  lemma RoomIdShape(suffix: nat)
    requires 1000 <= suffix <= 9999
    ensures |RoomId(suffix)| == 9
    ensures RoomId(suffix)[..5] == "room-"
    ensures IsDigits(RoomId(suffix)[5..]) && DigitsValue(RoomId(suffix)[5..]) == suffix
  {
    DecimalOfFourDigits(suffix);
    DecimalRoundTrip(suffix);
    assert RoomId(suffix)[5..] == Decimal(suffix);
  }

  /** The module-level `sessions` object and the three functions over it. */
  class Store {
    var sessions: seq<(string, Session)>  // session id -> session record, in insertion order

    ghost predicate Valid()
      reads this
    {
      StoreValid(sessions)
    }

    /** The store starts empty. */
    constructor ()
      ensures Valid() && sessions == []
    {
      sessions := [];
    }

    /** `get(sessionId)`: the record stored under `id`, if any; reads only. */
    function Get(id: string): (r: Option<Session>)
      reads this
      ensures r.None? <==> id !in Keys(sessions)
      ensures r.Some? ==> (id, r.value) in sessions
      ensures Valid() && r.Some? ==> SessionValid(r.value)
    {
      Lookup(sessions, id)
    }

    /**
     * `createSession(teacherId)` with the random draw passed in as `suffix`
     * (`Math.floor(1000 + Math.random() * 9000)` lies in 1000..9999).
     * The write is unconditional: a live session with the same id is replaced.
     */
    method CreateSession(teacherId: string, suffix: nat) returns (id: string)
      requires Valid()
      requires 1000 <= suffix <= 9999
      modifies this
      ensures Valid()
      ensures id == RoomId(suffix)
      ensures Get(id) == Some(FreshSession(teacherId))
      ensures forall other :: other != id ==> Get(other) == old(Get(other))
      ensures Keys(sessions) == if id in Keys(old(sessions)) then Keys(old(sessions)) else Keys(old(sessions)) + [id]
      ensures sessions == Put(old(sessions), id, FreshSession(teacherId))
    {
      id := RoomId(suffix);
      sessions := Put(sessions, id, FreshSession(teacherId));
    }

    /** `delete(sessionId)`: the session is gone, every other one is untouched. */
    method DeleteSession(id: string)
      requires Valid()
      modifies this
      ensures Valid()
      ensures Get(id).None?
      ensures forall other :: other != id ==> Get(other) == old(Get(other))
      ensures forall e :: e in sessions <==> e in old(sessions) && e.0 != id
      ensures sessions == Delete(old(sessions), id)
    {
      sessions := Delete(sessions, id);
    }
  }
}

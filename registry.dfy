/**
 * The in-memory session registry of the worker (worker/src/index.js): a map
 * from session id to session, swept of sessions idle for more than thirty
 * minutes at the start of every request.
 */
module Registry {
  import opened Latex

  datatype Role = User | Assistant

  /** One entry of a session's conversation history. */
  datatype Message = Message(role: Role, content: string)

  /** One concept of the summariser's plan; the handlers only count them. */
  datatype Concept = Concept(title: string, coreIdea: string, requiredBackground: string, relevantFigures: seq<string>)

  /** A tutoring session, as the registry stores it. `currentConcept` counts
      from 1. */
  datatype Session = Session(
    sessionId: string,
    arxivId: string,
    apiKey: string,
    userKnowledge: string,
    structure: Structure,
    concepts: seq<Concept>,
    history: seq<Message>,
    currentConcept: int,
    lastActivity: int)

  /** Thirty minutes, in milliseconds. */
  const SessionTimeout: int := 30 * 60 * 1000

  /** A session idle for strictly more than the timeout at `now`. */
  predicate Expired(s: Session, now: int) {
    now - s.lastActivity > SessionTimeout
  }

  /** The sessions of `m` that are not expired at `now`. */
  function Live(m: map<string, Session>, now: int): map<string, Session> {
    map id | id in m && !Expired(m[id], now) :: m[id]
  }

  function Max(a: int, b: int): int { if a < b then b else a }

  /** What every stored session satisfies: its concept index lies in
      `1 ..= max(1, |concepts|)`, and its history is non-empty and opens with
      the tutor's greeting. */
  predicate SessionValid(s: Session) {
    && 1 <= s.currentConcept <= Max(1, |s.concepts|)
    && |s.history| >= 1 && s.history[0].role == Assistant
  }

  /** Every session is stored under its own id and is valid. */
  predicate StoreValid(m: map<string, Session>) {
    forall id | id in m :: m[id].sessionId == id && SessionValid(m[id])
  }

  /** The module-level `sessions` map. */
  class SessionStore {
    var sessions: map<string, Session>

    constructor()
      ensures sessions == map[]
    {
      sessions := map[];
    }

    /** `cleanupExpiredSessions`: one pass over the entries, deleting each
        expired one. */
    method Sweep(now: int)
      modifies this
      ensures sessions == Live(old(sessions), now)
      ensures forall id | id in sessions :: now - sessions[id].lastActivity <= SessionTimeout
      ensures forall id | id in old(sessions) :: id in sessions <==> !Expired(old(sessions)[id], now)
      ensures forall id | id in sessions :: id in old(sessions) && sessions[id] == old(sessions)[id]
    {
      ghost var start := sessions;
      var pending := sessions.Keys;
      while pending != {}
        invariant pending <= start.Keys
        invariant sessions == map id | id in start && (id in pending || !Expired(start[id], now)) :: start[id]
        decreases pending
      {
        var sessionId :| sessionId in pending;
        if now - sessions[sessionId].lastActivity > SessionTimeout {
          sessions := sessions - {sessionId};
        }
        pending := pending - {sessionId};
      }
    }
  }

  /** A second sweep at the same time removes nothing more. */
  lemma SweepIdempotent(m: map<string, Session>, now: int)
    ensures Live(Live(m, now), now) == Live(m, now)
  {
  }

  /** The test is strict: a session idle for exactly the timeout survives,
      and one idle a millisecond longer does not. */
  lemma BoundarySurvives(m: map<string, Session>, id: string, now: int)
    requires id in m
    ensures now - m[id].lastActivity == SessionTimeout ==> id in Live(m, now)
    ensures now - m[id].lastActivity == SessionTimeout + 1 ==> id !in Live(m, now)
  {
  }

  /** Storing a valid session under its own id keeps the registry valid. */
  lemma StoreValidInsert(m: map<string, Session>, id: string, s: Session)
    requires StoreValid(m) && s.sessionId == id && SessionValid(s)
    ensures StoreValid(m[id := s])
  {
  }

  /** Sweeping keeps every stored session valid. */
  lemma SweepKeepsValid(m: map<string, Session>, now: int)
    requires StoreValid(m)
    ensures StoreValid(Live(m, now))
  {
  }
}

/**
 * One tutoring turn (`handleSessionAnswer`, worker/src/session-answer.js):
 * the learner's answer is recorded, the tutor replies, the concept index may
 * advance, the figures the reply mentions are disclosed, and a finished
 * session leaves the registry.
 */
module Answer {
  import opened Wrappers
  import opened Text
  import opened Disclosure
  import opened Http
  import opened Registry

  /** The tutor: given the session with the learner's answer appended, its
      reply, or the message of the error it throws. */
  type Tutor = Session -> Result<string>

  const MissingFieldsMessage: string := "Missing required fields: session_id, user_answer"
  const UnknownSessionMessage: string := "Session not found or expired"
  const AnswerFallbackMessage: string := "Failed to process answer"

  /** The phrases that signal the move to the next concept, in the order they
      are tested. */
  const AdvancePhrases: seq<string> := ["let's " + MovePhrase, MovePhrase, "ready for the next concept"]
  const MovePhrase: string := "move to the next concept"
  const CompleteWord: string := "complete"

  /** The tutor's reply contains one of the advance phrases, ignoring case. */
  predicate ShouldProgress(text: string) {
    var lower := Lower(text);
    Contains(lower, AdvancePhrases[0]) || Contains(lower, AdvancePhrases[1]) || Contains(lower, AdvancePhrases[2])
  }

  /** The first phrase contains the second, so the advance test is equivalent
      to looking for the two shorter phrases alone. */
  lemma ShouldProgressTwoPhrases(text: string)
    ensures ShouldProgress(text) <==>
      Contains(Lower(text), "move to the next concept") || Contains(Lower(text), "ready for the next concept")
  {
    var lower := Lower(text);
    var long := AdvancePhrases[0];
    LongPhraseHoldsShort();
    if Contains(lower, long) {
      ContainsTrans(lower, long, AdvancePhrases[1]);
    }
  }

  /** The first advance phrase is `let's ` followed by the second. */
  lemma LongPhraseHoldsShort()
    ensures Contains(AdvancePhrases[0], AdvancePhrases[1])
  {
    var long := "let's " + MovePhrase;
    assert long[6..6 + |MovePhrase|] == MovePhrase;
    ContainsAt(long, MovePhrase, 6);
  }

  /** The session once the answer arrived: activity refreshed and the answer
      appended to the history. */
  function Asked(s: Session, answer: string, now: int): Session {
    s.(lastActivity := now, history := s.history + [Message(User, answer)])
  }

  /** The session once the tutor replied: the reply appended, and the concept
      index advanced by one when the reply signals it and concepts remain. */
  function Answered(s: Session, text: string): Session {
    var advance := ShouldProgress(text) && s.currentConcept < |s.concepts|;
    s.(history := s.history + [Message(Assistant, text)],
       currentConcept := if advance then s.currentConcept + 1 else s.currentConcept)
  }

  /** The turn that ends the session: the index has reached the last concept
      and the reply either signals progress or mentions completion. */
  predicate IsComplete(s: Session, text: string) {
    s.currentConcept >= |s.concepts| && (ShouldProgress(text) || Contains(Lower(text), CompleteWord))
  }

  /** The turn on the stored session `id` once the request is accepted. */
  function TurnOn(store: map<string, Session>, id: string, answer: string, now: int, tutor: Tutor)
    : (Response, map<string, Session>)
    requires id in store
  {
    var asked := Asked(store[id], answer, now);
    match tutor(asked)
    case Err(m) => (Failure(500, ErrorText(m, AnswerFallbackMessage)), store[id := asked])
    case Ok(text) => Reply(store, id, Answered(asked, text), text)
  }

  /** The end of a turn whose tutor call returned `text`, with `after` the
      updated session. */
  function Reply(store: map<string, Session>, id: string, after: Session, text: string)
    : (Response, map<string, Session>)
  {
    match DiscloseAll(after.structure.figures, Refs(text))
    case Err(m) => (Failure(500, ErrorText(m, AnswerFallbackMessage)), store[id := after])
    case Ok(figures) =>
      var complete := IsComplete(after, text);
      (Response(200, AnswerReply(text, after.currentConcept, complete, figures)),
       if complete then store - {id} else store[id := after])
  }

  /** The whole turn, as a function of the registry before it: the response
      and the registry after it. */
  function AnswerTurn(store: map<string, Session>, body: Result<JsonObject>, now: int, tutor: Tutor)
    : (Response, map<string, Session>)
  {
    match body
    case Err(m) => (Failure(500, ErrorText(m, AnswerFallbackMessage)), store)
    case Ok(fields) =>
      var sessionId := Member(fields, "session_id");
      var answer := Member(fields, "user_answer");
      if !Truthy(sessionId) || !Truthy(answer) then (Failure(400, MissingFieldsMessage), store)
      else if sessionId.value !in store then (Failure(404, UnknownSessionMessage), store)
      else TurnOn(store, sessionId.value, answer.value, now, tutor)
  }

  /** `handleSessionAnswer(request, sessions)`. */
  method HandleAnswer(store: SessionStore, body: Result<JsonObject>, now: int, tutor: Tutor) returns (response: Response)
    modifies store
    ensures (response, store.sessions) == AnswerTurn(old(store.sessions), body, now, tutor)
  {
    if body.Err? {
      response := Failure(500, ErrorText(body.message, AnswerFallbackMessage));
      return;
    }
    var sessionId := Member(body.value, "session_id");
    var userAnswer := Member(body.value, "user_answer");
    if !Truthy(sessionId) || !Truthy(userAnswer) {
      response := Failure(400, MissingFieldsMessage);
      return;
    }
    if sessionId.value !in store.sessions {
      response := Failure(404, UnknownSessionMessage);
      return;
    }
    response := Converse(store, sessionId.value, userAnswer.value, now, tutor);
  }

  /** The part of the handler after validation: the in-place updates of the
      stored session and the tutor call. */
  method Converse(store: SessionStore, id: string, answer: string, now: int, tutor: Tutor) returns (response: Response)
    requires id in store.sessions
    modifies store
    ensures (response, store.sessions) == TurnOn(old(store.sessions), id, answer, now, tutor)
  {
    var session := store.sessions[id];
    session := session.(lastActivity := now);
    session := session.(history := session.history + [Message(User, answer)]);
    store.sessions := store.sessions[id := session];
    var tutorResponse := tutor(session);
    if tutorResponse.Err? {
      response := Failure(500, ErrorText(tutorResponse.message, AnswerFallbackMessage));
      return;
    }
    var text := tutorResponse.value;
    ghost var asked := session;
    session := session.(history := session.history + [Message(Assistant, text)]);
    var shouldProgress := ShouldProgress(text);
    if shouldProgress && session.currentConcept < |session.concepts| {
      session := session.(currentConcept := session.currentConcept + 1);
    }
    assert session == Answered(asked, text);
    store.sessions := store.sessions[id := session];
    assert TurnOn(old(store.sessions), id, answer, now, tutor) == Reply(old(store.sessions), id, session, text);
    ReplyOverwrites(old(store.sessions), id, session, text);
    assert store.sessions == old(store.sessions)[id := session];
    response := Conclude(store, id, session, text);
  }

  /** The end of the turn overwrites or deletes the entry `id`, so what was
      stored there before does not matter. */
  lemma ReplyOverwrites(store: map<string, Session>, id: string, after: Session, text: string)
    ensures Reply(store[id := after], id, after, text) == Reply(store, id, after, text)
  {
    assert store[id := after][id := after] == store[id := after];
    assert store[id := after] - {id} == store - {id};
  }

  /** The rest of the handler: completion, figure disclosure, clean-up. */
  method Conclude(store: SessionStore, id: string, session: Session, text: string) returns (response: Response)
    requires id in store.sessions && store.sessions[id] == session
    modifies store
    ensures (response, store.sessions) == Reply(old(store.sessions), id, session, text)
  {
    var isComplete := IsComplete(session, text);
    var relevantFigures := ExtractReferencedFigures(text, session.structure.figures);
    if relevantFigures.Err? {
      response := Failure(500, ErrorText(relevantFigures.message, AnswerFallbackMessage));
      assert store.sessions == store.sessions[id := session];
      return;
    }
    response := Response(200, AnswerReply(text, session.currentConcept, isComplete, relevantFigures.value));
    if isComplete {
      store.sessions := store.sessions - {id};
    } else {
      assert store.sessions == store.sessions[id := session];
    }
  }

  /** A rejected request (a body that does not parse, a missing field, an
      unknown session) leaves the registry as it was. */
  lemma RejectionsChangeNothing(store: map<string, Session>, body: Result<JsonObject>, now: int, tutor: Tutor)
    requires body.Err? || !Truthy(Member(body.value, "session_id")) || !Truthy(Member(body.value, "user_answer"))
             || Member(body.value, "session_id").value !in store
    ensures AnswerTurn(store, body, now, tutor).1 == store
    ensures body.Ok? ==> AnswerTurn(store, body, now, tutor).0.status in {400, 404}
  {
  }

  /** A turn touches at most the one session it names: every other entry of
      the registry is kept as it was. */
  lemma OtherSessionsUntouched(store: map<string, Session>, body: Result<JsonObject>, now: int, tutor: Tutor, other: string)
    requires body.Ok? && Member(body.value, "session_id") != Some(other)
    ensures var after := AnswerTurn(store, body, now, tutor).1;
      (other in after <==> other in store) && (other in store ==> after[other] == store[other])
  {
  }

  /** A failed tutor call keeps what the turn already did: the answer stays
      in the history and the activity time is refreshed, while the concept
      index is unchanged; the response is a 500. */
  lemma TutorFailureKeepsAnswer(store: map<string, Session>, fields: JsonObject, now: int, tutor: Tutor)
    requires Truthy(Member(fields, "session_id")) && Truthy(Member(fields, "user_answer"))
    requires fields["session_id"] in store
    requires tutor(Asked(store[fields["session_id"]], fields["user_answer"], now)).Err?
    ensures var (response, after) := AnswerTurn(store, Ok(fields), now, tutor);
      var id := fields["session_id"];
      && response.status == 500
      && id in after
      && after[id].history == store[id].history + [Message(User, fields["user_answer"])]
      && after[id].lastActivity == now
      && after[id].currentConcept == store[id].currentConcept
  {
  }

  /** A successful turn: the reply is returned verbatim with the updated
      concept index; the history grows by exactly the answer and the reply;
      the index grows by at most one; and the session is removed exactly when
      the turn completes it. */
  lemma SuccessfulTurn(store: map<string, Session>, fields: JsonObject, now: int, tutor: Tutor)
    requires Truthy(Member(fields, "session_id")) && Truthy(Member(fields, "user_answer"))
    requires fields["session_id"] in store
    requires AnswerTurn(store, Ok(fields), now, tutor).0.status == 200
    ensures var (response, after) := AnswerTurn(store, Ok(fields), now, tutor);
      var id := fields["session_id"];
      var s := store[id];
      var text := tutor(Asked(s, fields["user_answer"], now)).value;
      && response.reply.AnswerReply?
      && response.reply.tutorMessage == text
      && (id !in after <==> response.reply.isComplete)
      && (id in after ==>
            && after[id].history == s.history + [Message(User, fields["user_answer"]), Message(Assistant, text)]
            && after[id].currentConcept == response.reply.currentConcept)
      && s.currentConcept <= response.reply.currentConcept <= s.currentConcept + 1
      && (response.reply.currentConcept == s.currentConcept + 1 <==>
            ShouldProgress(text) && s.currentConcept < |s.concepts|)
      && (response.reply.isComplete <==>
            response.reply.currentConcept >= |s.concepts| && (ShouldProgress(text) || Contains(Lower(text), CompleteWord)))
  {
    var id := fields["session_id"];
    var s := store[id];
    assert s.history + [Message(User, fields["user_answer"])] + [Message(Assistant, tutor(Asked(s, fields["user_answer"], now)).value)]
        == s.history + [Message(User, fields["user_answer"]), Message(Assistant, tutor(Asked(s, fields["user_answer"], now)).value)];
  }

  /** Every turn keeps the registry valid: the concept index stays within
      `1 ..= max(1, |concepts|)` and each session stays under its own id. */
  lemma TurnKeepsValid(store: map<string, Session>, body: Result<JsonObject>, now: int, tutor: Tutor)
    requires StoreValid(store)
    ensures StoreValid(AnswerTurn(store, body, now, tutor).1)
  {
    if body.Ok? {
      var sessionId := Member(body.value, "session_id");
      var answer := Member(body.value, "user_answer");
      if Truthy(sessionId) && Truthy(answer) && sessionId.value in store {
        var id := sessionId.value;
        assert AnswerTurn(store, body, now, tutor) == TurnOn(store, id, answer.value, now, tutor);
        var asked := Asked(store[id], answer.value, now);
        assert SessionValid(asked);
        StoreValidInsert(store, id, asked);
        match tutor(asked)
        case Err(_) =>
        case Ok(text) =>
          var after := Answered(asked, text);
          assert SessionValid(after);
          StoreValidInsert(store, id, after);
          assert TurnOn(store, id, answer.value, now, tutor) == Reply(store, id, after, text);
      }
    }
  }
}

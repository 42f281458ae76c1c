/**
 * The worker's request entry point (`fetch`, worker/src/index.js): sweep
 * the registry, then route the request.
 */
module Worker {
  import opened Http
  import opened Registry
  import opened Answer
  import opened Start

  datatype Route = Preflight | HealthCheck | StartSession | AnswerTurnRoute | Unknown

  const NotFoundMessage: string := "Not found"
  const ServiceName: string := "readiscover-api"

  /** The routing decision: any `OPTIONS` request is a preflight, `/health`
      and `/` answer the health check whatever the method, and only `POST`
      reaches the two handlers. */
  function RouteOf(verb: string, path: string): Route {
    if verb == "OPTIONS" then Preflight
    else if path == "/health" || path == "/" then HealthCheck
    else if path == "/session/start" && verb == "POST" then StartSession
    else if path == "/session/answer" && verb == "POST" then AnswerTurnRoute
    else Unknown
  }

  /** The routed part of a request on the swept registry `live`. */
  function Serve(live: map<string, Session>, request: Request, now: int, sessionId: string, up: Upstream, tutor: Tutor)
    : (Response, map<string, Session>)
  {
    match RouteOf(request.verb, request.path)
    case Preflight => (Response(200, NoBody), live)
    case HealthCheck => (Response(200, Health("ok", ServiceName)), live)
    case StartSession => StartTurn(live, request.body, now, sessionId, up)
    case AnswerTurnRoute => AnswerTurn(live, request.body, now, tutor)
    case Unknown => (Failure(404, NotFoundMessage), live)
  }

  /** `fetch(request)`: the sweep runs first, on every request. `now` is the
      time the request is served; `sessionId` the UUID a start would use. */
  method Fetch(store: SessionStore, request: Request, now: int, sessionId: string, up: Upstream, tutor: Tutor)
    returns (response: Response)
    modifies store
    ensures (response, store.sessions) == Serve(Live(old(store.sessions), now), request, now, sessionId, up, tutor)
  {
    store.Sweep(now);
    var route := RouteOf(request.verb, request.path);
    if route == Preflight {
      response := Response(200, NoBody);
    } else if route == HealthCheck {
      response := Response(200, Health("ok", ServiceName));
    } else if route == StartSession {
      response := HandleStart(store, request.body, now, sessionId, up);
    } else if route == AnswerTurnRoute {
      response := HandleAnswer(store, request.body, now, tutor);
    } else {
      response := Failure(404, NotFoundMessage);
    }
  }

  /** Only `POST /session/start` and `POST /session/answer` reach a handler;
      every other request answers from the route alone and changes nothing
      beyond the sweep. */
  lemma OnlyPostReachesHandlers(live: map<string, Session>, request: Request, now: int, sessionId: string, up: Upstream, tutor: Tutor)
    ensures RouteOf(request.verb, request.path) in {StartSession, AnswerTurnRoute} <==>
      request.verb == "POST" && (request.path == "/session/start" || request.path == "/session/answer")
    ensures RouteOf(request.verb, request.path) !in {StartSession, AnswerTurnRoute} ==>
      Serve(live, request, now, sessionId, up, tutor).1 == live
    ensures request.verb != "OPTIONS" && request.path !in {"/health", "/", "/session/start", "/session/answer"} ==>
      Serve(live, request, now, sessionId, up, tutor).0 == Failure(404, NotFoundMessage)
  {
  }

  /** After any request no stored session is idle beyond the timeout: the
      sweep removed the expired ones, and a handler only writes sessions
      active at `now`. */
  lemma NoExpiredAfterRequest(before: map<string, Session>, request: Request, now: int, sessionId: string, up: Upstream, tutor: Tutor)
    ensures var after := Serve(Live(before, now), request, now, sessionId, up, tutor).1;
      forall id | id in after :: now - after[id].lastActivity <= SessionTimeout
  {
  }

  /** Every request keeps the registry valid. */
  lemma RequestKeepsValid(before: map<string, Session>, request: Request, now: int, sessionId: string, up: Upstream, tutor: Tutor)
    requires StoreValid(before)
    ensures StoreValid(Serve(Live(before, now), request, now, sessionId, up, tutor).1)
  {
    var live := Live(before, now);
    SweepKeepsValid(before, now);
    var route := RouteOf(request.verb, request.path);
    if route == StartSession {
      StartKeepsValid(live, request.body, now, sessionId, up);
    } else if route == AnswerTurnRoute {
      TurnKeepsValid(live, request.body, now, tutor);
    }
  }
}

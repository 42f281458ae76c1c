/**
 * Session creation (`handleSessionStart`, worker/src/session-start.js):
 * validate the request, obtain the paper's source archive, find the main
 * document, extract the structure, have the concepts summarised and the
 * greeting written, and only then store the new session.
 */
module Start {
  import opened Wrappers
  import opened Tar
  import opened MainDocument
  import opened Latex
  import opened Http
  import opened Registry

  /** The services the handler calls and whose code is not part of this
      model: the download and decompression of `https://arxiv.org/src/<id>`
      (`None` when either fails), the UTF-8 decoder and base64 encoder the
      archive reader applies, the concept summariser and the greeting
      writer (each `Err` carrying the message of the error it throws). */
  datatype Upstream = Upstream(
    fetchSource: string -> Option<seq<Byte>>,
    decode: Decoder,
    encode: Encoder,
    summarize: (string, Structure, string) -> Result<seq<Concept>>,
    greet: (string, seq<Concept>, string, string) -> Result<string>)

  const MissingStartFieldsMessage: string := "Missing required fields: arxiv_id, openrouter_api_key"
  const DownloadFailedMessage: string := "Failed to download arXiv source. The paper may not have source files available."
  const NoMainFileMessage: string := "Could not find main LaTeX file in source"
  const StartFallbackMessage: string := "Failed to start session"

  /** The outcome of the steps before the session is stored. */
  datatype Prepared =
    | Failed(response: Response)
    | Ready(structure: Structure, concepts: seq<Concept>, greeting: string)

  /** Steps 1 to 5: download and read the archive, find the main document,
      extract the structure, summarise, greet. */
  function Prepare(up: Upstream, arxivId: string, apiKey: string, knowledge: string): Prepared {
    match up.fetchSource(arxivId)
    case None => Failed(Failure(500, DownloadFailedMessage))
    case Some(bytes) =>
      var files := Entries(up.decode, up.encode, bytes, 0);
      match FindMainTexFile(files)
      case None => Failed(Failure(400, NoMainFileMessage))
      case Some(mainFile) =>
        var structure := StructureOf(files, mainFile);
        match up.summarize(apiKey, structure, knowledge)
        case Err(m) => Failed(Failure(500, ErrorText(m, StartFallbackMessage)))
        case Ok(concepts) =>
          match up.greet(apiKey, concepts, structure.title, knowledge)
          case Err(m) => Failed(Failure(500, ErrorText(m, StartFallbackMessage)))
          case Ok(greeting) => Ready(structure, concepts, greeting)
  }

  /** The session record stored on success. */
  function NewSession(sessionId: string, arxivId: string, apiKey: string, knowledge: string,
                      ready: Prepared, now: int): Session
    requires ready.Ready?
  {
    Session(sessionId, arxivId, apiKey, knowledge, ready.structure, ready.concepts,
            [Message(Assistant, ready.greeting)], 1, now)
  }

  /** The whole request, as a function of the registry before it: the
      response and the registry after it. `sessionId` is the fresh UUID. */
  function StartTurn(store: map<string, Session>, body: Result<JsonObject>, now: int, sessionId: string, up: Upstream)
    : (Response, map<string, Session>)
  {
    match body
    case Err(m) => (Failure(500, ErrorText(m, StartFallbackMessage)), store)
    case Ok(fields) =>
      var arxivId := Member(fields, "arxiv_id");
      var apiKey := Member(fields, "openrouter_api_key");
      if !Truthy(arxivId) || !Truthy(apiKey) then (Failure(400, MissingStartFieldsMessage), store)
      else
        var knowledge := OrEmpty(Member(fields, "user_knowledge_text"));
        match Prepare(up, arxivId.value, apiKey.value, knowledge)
        case Failed(response) => (response, store)
        case Ready(structure, concepts, greeting) =>
          var session := NewSession(sessionId, arxivId.value, apiKey.value, knowledge,
                                    Ready(structure, concepts, greeting), now);
          (Response(200, StartReply(sessionId, structure.title, |concepts|, greeting)), store[sessionId := session])
  }

  /** Steps 1 to 5 as the handler runs them; nothing is stored yet. */
  method PrepareSession(up: Upstream, arxivId: string, apiKey: string, knowledge: string) returns (prepared: Prepared)
    ensures prepared == Prepare(up, arxivId, apiKey, knowledge)
  {
    var bytes := up.fetchSource(arxivId);
    if bytes.None? {
      return Failed(Failure(500, DownloadFailedMessage));
    }
    var files := ParseTar(up.decode, up.encode, bytes.value);
    var mainFile := FindMainTexFile(files);
    if mainFile.None? {
      return Failed(Failure(400, NoMainFileMessage));
    }
    var structure := ExtractStructure(files, mainFile.value);
    var concepts := up.summarize(apiKey, structure, knowledge);
    if concepts.Err? {
      return Failed(Failure(500, ErrorText(concepts.message, StartFallbackMessage)));
    }
    var initialMessage := up.greet(apiKey, concepts.value, structure.title, knowledge);
    if initialMessage.Err? {
      return Failed(Failure(500, ErrorText(initialMessage.message, StartFallbackMessage)));
    }
    prepared := Ready(structure, concepts.value, initialMessage.value);
  }

  /** `handleSessionStart(request, sessions)`. */
  method HandleStart(store: SessionStore, body: Result<JsonObject>, now: int, sessionId: string, up: Upstream)
    returns (response: Response)
    modifies store
    ensures (response, store.sessions) == StartTurn(old(store.sessions), body, now, sessionId, up)
  {
    if body.Err? {
      response := Failure(500, ErrorText(body.message, StartFallbackMessage));
      return;
    }
    var arxivId := Member(body.value, "arxiv_id");
    var apiKey := Member(body.value, "openrouter_api_key");
    if !Truthy(arxivId) || !Truthy(apiKey) {
      response := Failure(400, MissingStartFieldsMessage);
      return;
    }
    var knowledge := OrEmpty(Member(body.value, "user_knowledge_text"));
    var prepared := PrepareSession(up, arxivId.value, apiKey.value, knowledge);
    if prepared.Failed? {
      response := prepared.response;
      return;
    }
    var session := NewSession(sessionId, arxivId.value, apiKey.value, knowledge, prepared, now);
    store.sessions := store.sessions[sessionId := session];
    response := Response(200, StartReply(sessionId, prepared.structure.title, |prepared.concepts|, prepared.greeting));
  }

  /** All or nothing: a failed start leaves the registry as it was, and a
      successful one adds exactly the fresh id, leaving every other entry as
      it was. */
  lemma StartAllOrNothing(store: map<string, Session>, body: Result<JsonObject>, now: int, sessionId: string, up: Upstream)
    ensures var (response, after) := StartTurn(store, body, now, sessionId, up);
      && (response.status != 200 ==> after == store)
      && (response.status == 200 ==>
            && after.Keys == store.Keys + {sessionId}
            && forall id | id in store && id != sessionId :: after[id] == store[id])
  {
    if body.Ok? {
      var arxivId := Member(body.value, "arxiv_id");
      var apiKey := Member(body.value, "openrouter_api_key");
      if Truthy(arxivId) && Truthy(apiKey) {
        var knowledge := OrEmpty(Member(body.value, "user_knowledge_text"));
        var prepared := Prepare(up, arxivId.value, apiKey.value, knowledge);
        PreparedFailureStatus(up, arxivId.value, apiKey.value, knowledge);
        if prepared.Ready? {
          var after := store[sessionId := NewSession(sessionId, arxivId.value, apiKey.value, knowledge, prepared, now)];
          assert StartTurn(store, body, now, sessionId, up).1 == after;
        }
      }
    }
  }

  /** Every failure of the preparation steps answers with an error status. */
  lemma PreparedFailureStatus(up: Upstream, arxivId: string, apiKey: string, knowledge: string)
    ensures Prepare(up, arxivId, apiKey, knowledge).Failed? ==>
      Prepare(up, arxivId, apiKey, knowledge).response.status in {400, 500}
  {
  }

  /** The rejections the handler answers with 400: a missing field, or an
      archive without any `.tex` file. */
  lemma StartRejections(store: map<string, Session>, fields: JsonObject, now: int, sessionId: string, up: Upstream)
    ensures !Truthy(Member(fields, "arxiv_id")) || !Truthy(Member(fields, "openrouter_api_key")) ==>
      StartTurn(store, Ok(fields), now, sessionId, up) == (Failure(400, MissingStartFieldsMessage), store)
    ensures Truthy(Member(fields, "arxiv_id")) && Truthy(Member(fields, "openrouter_api_key"))
            && up.fetchSource(fields["arxiv_id"]).Some?
            && (forall f | f in Entries(up.decode, up.encode, up.fetchSource(fields["arxiv_id"]).value, 0) :: !IsTex(f)) ==>
      StartTurn(store, Ok(fields), now, sessionId, up) == (Failure(400, NoMainFileMessage), store)
  {
    if Truthy(Member(fields, "arxiv_id")) && Truthy(Member(fields, "openrouter_api_key"))
       && up.fetchSource(fields["arxiv_id"]).Some? {
      var files := Entries(up.decode, up.encode, up.fetchSource(fields["arxiv_id"]).value, 0);
      EntriesWellFormed(up.decode, up.encode, up.fetchSource(fields["arxiv_id"]).value, 0);
      MainTexFileFound(files);
    }
  }

  /** A successful start stores a fresh session: at concept 1, with the
      greeting as its whole history, the knowledge text defaulting to the
      empty string, active now; the response reports the extracted title,
      which is clean, and the number of concepts. */
  lemma StartSuccess(store: map<string, Session>, fields: JsonObject, now: int, sessionId: string, up: Upstream)
    requires StartTurn(store, Ok(fields), now, sessionId, up).0.status == 200
    ensures var (response, after) := StartTurn(store, Ok(fields), now, sessionId, up);
      var s := after[sessionId];
      && sessionId in after
      && s.sessionId == sessionId
      && s.arxivId == fields["arxiv_id"] && s.apiKey == fields["openrouter_api_key"]
      && s.currentConcept == 1
      && s.history == [Message(Assistant, response.reply.initialMessage)]
      && s.lastActivity == now
      && s.userKnowledge == OrEmpty(Member(fields, "user_knowledge_text"))
      && response.reply == StartReply(sessionId, s.structure.title, |s.concepts|, response.reply.initialMessage)
      && IsCleanTitle(response.reply.paperTitle)
  {
    var arxivId := fields["arxiv_id"];
    var apiKey := fields["openrouter_api_key"];
    var knowledge := OrEmpty(Member(fields, "user_knowledge_text"));
    var prepared := Prepare(up, arxivId, apiKey, knowledge);
    PreparedFailureStatus(up, arxivId, apiKey, knowledge);
    assert prepared.Ready?;
    var session := NewSession(sessionId, arxivId, apiKey, knowledge, prepared, now);
    assert StartTurn(store, Ok(fields), now, sessionId, up)
        == (Response(200, StartReply(sessionId, prepared.structure.title, |prepared.concepts|, prepared.greeting)),
            store[sessionId := session]);
    ReadyTitleIsClean(up, arxivId, apiKey, knowledge);
  }

  /** A prepared session's title is the main document's clean title. */
  lemma ReadyTitleIsClean(up: Upstream, arxivId: string, apiKey: string, knowledge: string)
    requires Prepare(up, arxivId, apiKey, knowledge).Ready?
    ensures IsCleanTitle(Prepare(up, arxivId, apiKey, knowledge).structure.title)
  {
    var files := Entries(up.decode, up.encode, up.fetchSource(arxivId).value, 0);
    StructureFacts(files, FindMainTexFile(files).value);
  }

  /** Starting a session keeps the registry valid. */
  lemma StartKeepsValid(store: map<string, Session>, body: Result<JsonObject>, now: int, sessionId: string, up: Upstream)
    requires StoreValid(store)
    ensures StoreValid(StartTurn(store, body, now, sessionId, up).1)
  {
    StartAllOrNothing(store, body, now, sessionId, up);
    var (response, after) := StartTurn(store, body, now, sessionId, up);
    if response.status == 200 {
      assert body.Ok?;
      StartSuccess(store, body.value, now, sessionId, up);
      forall id | id in after ensures after[id].sessionId == id && SessionValid(after[id]) {
        if id != sessionId {
          assert id in store;
        }
      }
    }
  }
}

/**
 * The request and response shapes of the worker's HTTP interface, reduced
 * to what the handlers read and what they answer: the method, the path, the
 * parsed JSON body, and the status with the JSON reply.
 */
module Http {
  import opened Wrappers
  import opened Disclosure

  /** A parsed JSON object body: its members with string values. */
  type JsonObject = map<string, string>

  /** A request: its method, its URL path and its body. The body is the outcome of `request.json()`: the object, or
      the message of the `SyntaxError` the parse throws. */
  datatype Request = Request(verb: string, path: string, body: Result<JsonObject>)

  datatype Reply =
    /** The preflight answer: no body. */
    | NoBody
    /** `{status: 'ok', service: 'readiscover-api'}`. */
    | Health(status: string, service: string)
    | ErrorReply(error: string)
    | StartReply(sessionId: string, paperTitle: string, totalConcepts: nat, initialMessage: string)
    | AnswerReply(tutorMessage: string, currentConcept: int, isComplete: bool, figures: seq<Disclosed>)

  datatype Response = Response(status: int, reply: Reply)

  /** A member of the body; `undefined` when absent. */
  function Member(body: JsonObject, key: string): Option<string> {
    if key in body then Some(body[key]) else None
  }

  /** JavaScript truthiness of a string member: present and not empty. */
  predicate Truthy(v: Option<string>) {
    v.Some? && v.value != ""
  }

  /** `v || ''`. */
  function OrEmpty(v: Option<string>): (r: string)
    ensures Truthy(v) ==> r == v.value
    ensures !Truthy(v) ==> r == ""
  {
    if v.Some? then v.value else ""
  }

  /** `error.message || fallback`. */
  function ErrorText(message: string, fallback: string): string {
    if message == "" then fallback else message
  }

  /** A failure reply. */
  function Failure(status: int, error: string): Response {
    Response(status, ErrorReply(error))
  }
}

/**
 * The line-oriented control protocol: requests, responses, advisory
 * events, error codes, and the method router (handle_request). The
 * handlers behind the router are parameters.
 */
module Protocol {
  import opened Common

  const ParseErrorCode: int := -32700
  const UnknownMethodCode: int := -1
  const NoTextCode: int := 1
  const GenerationFailedCode: int := 2
  const NoAudioCode: int := 3

  /** The id a response carries when the request had none. */
  const UnknownId: string := "unknown"

  const DefaultModel: string := "mlx-community/chatterbox-turbo-8bit"

  /** The request parameters the core reads; a missing key is None. */
  datatype Params = Params(text: Option<string>, model: Option<string>, stream: bool)

  /** A request object; a missing key is None. */
  datatype Request = Request(id: Option<string>, methodName: Option<string>, params: Params)

  /** What a successful response carries. Health and ModelCatalogue are
      what the health and list-models handlers answer; those handlers are
      parameters, so no member here builds them. */
  datatype Payload =
    | Health(modelLoaded: Option<string>)
    | ModelCatalogue
    | Audio(sampleRate: nat, audio: seq<u32>, complete: bool,
            chunksGenerated: nat, chunksTotal: nat, reason: Option<string>)
    | ShuttingDown

  datatype Body = Result(payload: Payload) | Error(code: int, message: string)

  /** A response; `id` None is a response without an id (or with a null one). */
  datatype Response = Response(id: Option<string>, body: Body)

  /** The status event handle_generate sends before synthesis when the
      requested model is not the loaded one. */
  datatype Phase = LoadingModel(model: string)

  /** Everything written to a connection, in the order written. */
  datatype Output =
    | Reply(response: Response)
    | Progress(id: string, chunk: nat, totalChunks: nat, charsDone: nat, charsTotal: nat)
    | Status(id: string, phase: Phase)
    | Binary(bytes: seq<byte>)

  /** The method handlers. Each gets the request id and parameters; a JSON
      handler returns what it wrote while working and the response body. */
  datatype Handlers = Handlers(
    generate: (string, Params) -> (seq<Output>, Body),
    streamBinary: (string, Params) -> seq<byte>,
    health: string -> Body,
    listModels: string -> Body)

  /** The result of routing: what the handler wrote, the response the
      server loop still has to send (None for binary streaming), and
      whether the request counts as speech work for the idle timer. */
  datatype Routed = Routed(written: seq<Output>, response: Option<Response>, isTts: bool)

  predicate IsKnownMethod(m: string) {
    m == "generate" || m == "stream-binary" || m == "health" || m == "list-models"
  }

  /** `handle_request`: dispatch on the method name. */
  function Route(req: Request, h: Handlers): (r: Routed)
    ensures r.isTts <==> req.methodName == Some("generate") || req.methodName == Some("stream-binary")
    ensures r.response.None? <==> req.methodName == Some("stream-binary")
    ensures r.response.Some? ==> r.response.value.id == Some(req.id.GetOr(UnknownId))
    ensures !IsKnownMethod(req.methodName.GetOr("")) ==>
      && r.written == []
      && r.response == Some(Response(Some(req.id.GetOr(UnknownId)),
           Error(UnknownMethodCode, "Unknown method: " + req.methodName.GetOr(""))))
    ensures req.methodName == Some("generate") ==>
      var (events, body) := h.generate(req.id.GetOr(UnknownId), req.params);
      && r.written == events
      && r.response == Some(Response(Some(req.id.GetOr(UnknownId)), body))
    ensures req.methodName == Some("stream-binary") ==>
      r.written == [Binary(h.streamBinary(req.id.GetOr(UnknownId), req.params))]
    ensures req.methodName == Some("health") ==>
      && r.written == []
      && r.response == Some(Response(Some(req.id.GetOr(UnknownId)), h.health(req.id.GetOr(UnknownId))))
    ensures req.methodName == Some("list-models") ==>
      && r.written == []
      && r.response == Some(Response(Some(req.id.GetOr(UnknownId)), h.listModels(req.id.GetOr(UnknownId))))
  {
    var id := req.id.GetOr(UnknownId);
    var name := req.methodName.GetOr("");
    if name == "generate" then
      var (written, body) := h.generate(id, req.params);
      Routed(written, Some(Response(Some(id), body)), true)
    else if name == "stream-binary" then
      Routed([Binary(h.streamBinary(id, req.params))], None, true)
    else if name == "health" then
      Routed([], Some(Response(Some(id), h.health(id))), false)
    else if name == "list-models" then
      Routed([], Some(Response(Some(id), h.listModels(id))), false)
    else
      Routed([], Some(Response(Some(id), Error(UnknownMethodCode, "Unknown method: " + name))), false)
  }

  /** Two sets of handlers that answer this request's method alike, for
      this request's id and parameters. */
  ghost predicate AgreeOnMethod(req: Request, h1: Handlers, h2: Handlers) {
    var id := req.id.GetOr(UnknownId);
    match req.methodName.GetOr("")
    case "generate" => h1.generate(id, req.params) == h2.generate(id, req.params)
    case "stream-binary" => h1.streamBinary(id, req.params) == h2.streamBinary(id, req.params)
    case "health" => h1.health(id) == h2.health(id)
    case "list-models" => h1.listModels(id) == h2.listModels(id)
    case _ => true
  }

  /** Routing consults only the handler of the request's own method:
      handlers that agree on it route the request identically. */
  lemma RouteUsesOnlyItsHandler(req: Request, h1: Handlers, h2: Handlers)
    requires AgreeOnMethod(req, h1, h2)
    ensures Route(req, h1) == Route(req, h2)
  {
    var name := req.methodName.GetOr("");
    if name == "generate" {
      assert req.methodName == Some("generate");
    } else if name == "stream-binary" {
      assert req.methodName == Some("stream-binary");
    } else if name == "health" {
      assert req.methodName == Some("health");
    } else if name == "list-models" {
      assert req.methodName == Some("list-models");
    }
  }
}

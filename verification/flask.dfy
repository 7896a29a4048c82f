/** The Flask-style `App`: a route table that only grows, first-match path
    lookup, and the decision `handle` makes for each request: which route's
    handler answers, or the built-in 404 or 405 response, or nothing. The
    handlers themselves, the threads and the socket writes stay outside. */
module Flask {
  import opened Wrappers
  import opened Bytes
  import opened HttpStatus
  import opened HttpMessage
  import opened HttpParse
  import opened HttpHeaders
  import opened HttpResponseCodec
  import opened Utf8
  import opened Widening

  /** `RouteFn`: a request in, a response out. */
  type RouteFn = HTTPRequest -> HTTPResponse

  datatype Route = Route(path: Bytes, func: RouteFn, allowedMethods: seq<Bytes>)

  datatype App = App(name: Bytes, routes: seq<Route>)

  /** "GET", the one method `route` allows */
  const GET: Bytes := [71, 69, 84]
  /** "!404", the path of a user-supplied not-found route */
  const NOT_FOUND_PATH: Bytes := [33, 52, 48, 52]
  /** "!405", the path of a user-supplied method-not-allowed route */
  const NOT_ALLOWED_PATH: Bytes := [33, 52, 48, 53]

  /** `App::new`: an app with no routes. */
  function New(name: Bytes): (app: App)
    ensures app.name == name && |app.routes| == 0
  {
    App(name, [])
  }

  /** `route_with_allowed_methods`: one route appended, the earlier ones
      kept. */
  function AddRouteWithMethods(app: App, path: Bytes, func: RouteFn, allowedMethods: seq<Bytes>): (r: App)
    ensures r.name == app.name
    ensures |r.routes| == |app.routes| + 1 && r.routes[..|app.routes|] == app.routes
    ensures r.routes[|app.routes|] == Route(path, func, allowedMethods)
  {
    App(app.name, app.routes + [Route(path, func, allowedMethods)])
  }

  /** `route`: a route appended that allows `GET` only. */
  function AddRoute(app: App, path: Bytes, func: RouteFn): (r: App)
    ensures r.name == app.name
    ensures |r.routes| == |app.routes| + 1 && r.routes[..|app.routes|] == app.routes
    ensures r.routes[|app.routes|] == Route(path, func, [GET])
  {
    AddRouteWithMethods(app, path, func, [GET])
  }

  /** `find_route_for_path`: the index of the first route whose path is
      exactly `path`. */
  function FindRoute(routes: seq<Route>, path: Bytes): (r: Option<nat>)
    ensures r.Some? ==> r.value < |routes| && routes[r.value].path == path
    ensures r.Some? ==> forall j :: 0 <= j < r.value ==> routes[j].path != path
    ensures r.None? <==> forall j :: 0 <= j < |routes| ==> routes[j].path != path
    decreases |routes|
  {
    if |routes| == 0 then None
    else if routes[0].path == path then Some(0)
    else match FindRoute(routes[1..], path)
      case None => None
      case Some(i) => Some(i + 1)
  }

  /** A fresh app routes nothing. */
  lemma NewRoutesNothing(name: Bytes, path: Bytes)
    ensures FindRoute(New(name).routes, path) == None
  {
  }

  /** Adding a route changes only the lookups of its path that found
      nothing before: the first registration of a path wins. */
  lemma {:induction false} FindAfterAppend(routes: seq<Route>, route: Route, path: Bytes)
    ensures FindRoute(routes + [route], path) ==
              if FindRoute(routes, path).Some? then FindRoute(routes, path)
              else if route.path == path then Some(|routes|)
              else None
    decreases |routes|
  {
    if |routes| > 0 {
      assert (routes + [route])[1..] == routes[1..] + [route];
      FindAfterAppend(routes[1..], route, path);
    }
  }

  /** Registering a path that is already routed leaves every lookup as it
      was. */
  lemma ShadowedRoute(app: App, path: Bytes, func: RouteFn, methods: seq<Bytes>, q: Bytes)
    requires FindRoute(app.routes, path).Some?
    ensures FindRoute(AddRouteWithMethods(app, path, func, methods).routes, q) == FindRoute(app.routes, q)
  {
    FindAfterAppend(app.routes, Route(path, func, methods), q);
  }

  /** Which responder `handle` picks. `Handler(i)` runs the handler of route
      `i`, which may be the `!404` or `!405` route. */
  datatype Responder = Handler(index: nat) | BuiltInNotFound | BuiltInMethodNotAllowed | NoReply

  /** The decision in `handle`. A path that is not UTF-8 gets no reply; an
      unknown path goes to `!404`, or the built-in 404; a known path runs its
      handler when the method is allowed and otherwise goes to `!405`, or the
      built-in 405. The method is decoded with `unwrap` on the handler's
      thread, so a method that is not UTF-8 panics there and nothing is
      sent. */
  function Dispatch(app: App, request: HTTPRequest): (r: Responder)
    ensures r.Handler? ==> r.index < |app.routes|
  {
    if !ValidUtf8(request.path) then NoReply
    else match FindRoute(app.routes, request.path)
      case None =>
        (match FindRoute(app.routes, NOT_FOUND_PATH)
         case Some(i) => Handler(i)
         case None => BuiltInNotFound)
      case Some(i) =>
        if !ValidUtf8(request.httpmethod) then NoReply
        else if request.httpmethod in app.routes[i].allowedMethods then Handler(i)
        else match FindRoute(app.routes, NOT_ALLOWED_PATH)
          case Some(j) => Handler(j)
          case None => BuiltInMethodNotAllowed
  }

  /** No reply exactly when the path, or the method of a routed path, is not
      UTF-8. */
  lemma NoReplyIff(app: App, request: HTTPRequest)
    ensures Dispatch(app, request) == NoReply <==>
              !ValidUtf8(request.path)
              || (FindRoute(app.routes, request.path).Some? && !ValidUtf8(request.httpmethod))
  {
  }

  /** A routed path with an allowed method is answered by the first route
      registered for the path, and only then is that route's handler run
      for a path other than `!404` and `!405`. */
  lemma HandledIff(app: App, request: HTTPRequest, i: nat)
    requires ValidUtf8(request.path) && ValidUtf8(request.httpmethod)
    requires i < |app.routes| && app.routes[i].path != NOT_FOUND_PATH && app.routes[i].path != NOT_ALLOWED_PATH
    ensures Dispatch(app, request) == Handler(i) <==>
              && FindRoute(app.routes, request.path) == Some(i)
              && request.httpmethod in app.routes[i].allowedMethods
  {
  }

  /** An unrouted UTF-8 path goes to the `!404` route when there is one,
      and to the built-in 404 otherwise. */
  lemma NotFoundDispatch(app: App, request: HTTPRequest)
    requires ValidUtf8(request.path) && FindRoute(app.routes, request.path).None?
    ensures FindRoute(app.routes, NOT_FOUND_PATH).Some? ==>
              Dispatch(app, request) == Handler(FindRoute(app.routes, NOT_FOUND_PATH).value)
    ensures FindRoute(app.routes, NOT_FOUND_PATH).None? ==> Dispatch(app, request) == BuiltInNotFound
  {
  }

  /** A routed path with a UTF-8 method its route does not allow goes to the
      `!405` route when there is one, and to the built-in 405 otherwise. */
  lemma MethodNotAllowedDispatch(app: App, request: HTTPRequest)
    requires ValidUtf8(request.path) && ValidUtf8(request.httpmethod)
    requires FindRoute(app.routes, request.path).Some?
    requires request.httpmethod !in app.routes[FindRoute(app.routes, request.path).value].allowedMethods
    ensures FindRoute(app.routes, NOT_ALLOWED_PATH).Some? ==>
              Dispatch(app, request) == Handler(FindRoute(app.routes, NOT_ALLOWED_PATH).value)
    ensures FindRoute(app.routes, NOT_ALLOWED_PATH).None? ==> Dispatch(app, request) == BuiltInMethodNotAllowed
  {
  }

  /** One turn of `run`'s accept loop on a connection that delivers
      `stream`: a request `read_http_request` rejects is logged and
      dropped, and any other is handed to `handle`. */
  function Serve(app: App, stream: Bytes): (r: Option<Responder>)
    requires RequestLineEnds(stream)
    ensures r.None? <==> ParseRequest(stream).Failure?
    ensures r.Some? ==> r.value == Dispatch(app, ParseRequest(stream).value.value)
  {
    match ParseRequest(stream)
    case Failure(_) => None
    case Success(p) => Some(Dispatch(app, p.value))
  }

  /** A request that `run` reads itself is always answered: the reader
      collects the method and path in `String`s, so both are UTF-8 and the
      `from_utf8` checks of `handle` cannot fail on them. */
  lemma ServedRequestsReplied(app: App, stream: Bytes)
    requires RequestLineEnds(stream)
    ensures Serve(app, stream) != Some(NoReply)
  {
    if ParseRequest(stream).Success? {
      var i := IndexOf(stream, SP);
      var rest := stream[i + 1..];
      ParsedRequestLine(stream);
      WidenValid(stream[..i]);
      WidenValid(rest[..IndexOf(rest, SP)]);
      NoReplyIff(app, ParseRequest(stream).value.value);
    }
  }

  /** On an app built with `route` alone, a `GET` for a registered ASCII
      path runs the handler first registered for it, and any other method
      gets the built-in 405 unless a `!405` route exists. */
  lemma RouteAllowsOnlyGet(name: Bytes, path: Bytes, func: RouteFn, request: HTTPRequest)
    requires IsAscii(path) && IsAscii(request.httpmethod) && request.path == path
    requires path != NOT_ALLOWED_PATH
    ensures var app := AddRoute(New(name), path, func);
            && (request.httpmethod == GET ==> Dispatch(app, request) == Handler(0))
            && (request.httpmethod != GET ==> Dispatch(app, request) == BuiltInMethodNotAllowed)
  {
    AsciiValid(path);
    AsciiValid(request.httpmethod);
  }

  /** "404 Not Found" */
  const NOT_FOUND_TEXT: Bytes := [52, 48, 52, 32, 78, 111, 116, 32, 70, 111, 117, 110, 100]
  /** "Not Found" */
  const NOT_FOUND_REASON: Bytes := [78, 111, 116, 32, 70, 111, 117, 110, 100]

  /** The built-in 404: `HTTPResponse::from("404 Not Found")` with its
      status and reason changed. */
  function NotFoundResponse(): (r: HTTPResponse)
    ensures r.statuscode == NotFound && r.reason == NOT_FOUND_REASON && r.content == NOT_FOUND_TEXT
    ensures r.httptag == HTTP && r.httpversion == (1, 1)
    ensures r.headers == map[CONTENT_LENGTH := Decimal(|NOT_FOUND_TEXT|)]
  {
    FromText(NOT_FOUND_TEXT).(statuscode := NotFound, reason := NOT_FOUND_REASON)
  }

  /** The built-in 404, as sent, is read back by `read_http_response` as a
      404 with the same headers; the reason keeps its leading space and the
      content is shifted by the LF the header reader leaves. */
  lemma NotFoundReadBack()
    ensures var p := ParseResponse(ResponseBytes(NotFoundResponse(), [CONTENT_LENGTH]));
            && p.Success?
            && p.value.value.statuscode == NotFound
            && p.value.value.reason == [SP] + NOT_FOUND_REASON
            && p.value.value.headers == NotFoundResponse().headers
            && p.value.value.content == ([LF] + NOT_FOUND_TEXT)[..|NOT_FOUND_TEXT|]
  {
    var r := NotFoundResponse();
    assert CR !in NOT_FOUND_REASON;
    FromTextReparsable(NOT_FOUND_TEXT, NotFound, NOT_FOUND_REASON);
    ResponseRoundTrip(r, [CONTENT_LENGTH]);
  }
}

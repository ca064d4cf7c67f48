/** The application-wide api-key gate and the exception handlers that turn a raised exception into
    an HTTP response. */
module App {
  import opened Wrappers
  import opened Exceptions
  import opened Store
  import UserServices

  /** The key that passes the gate without a lookup. */
  const TestKey: string := "test"

  /** `verify_api_key(api_key)`, the dependency every route runs first. Both refusals are plain
      `BackendException`s. The store call is not wrapped, so a refused connection escapes as is. */
  function VerifyApiKey(db: Database, apiKey: string): (r: Outcome<bool>)
    requires db.AuthorsValid()
    reads db
    ensures apiKey == "" ==> r == Throw(BackendException, NotAuthorized)
    ensures apiKey == TestKey ==> r == Return(true)
    ensures apiKey != "" && apiKey != TestKey && !db.online ==> r == Raise(ConnectionRefusedError)
    ensures apiKey != "" && apiKey != TestKey && db.online && !ApiKeyTaken(db.authors, apiKey) ==>
              r == Throw(BackendException, ApiKeyNotExists)
    ensures r.Return? <==> apiKey == TestKey || (apiKey != "" && db.online && ApiKeyTaken(db.authors, apiKey))
    ensures r.Return? ==> r.value
  {
    if apiKey == "" then Throw(BackendException, NotAuthorized)
    else if apiKey == TestKey then Return(true)
    else
      var known :- UserServices.VerifyApiKey(db, apiKey);
      if !known then Throw(BackendException, ApiKeyNotExists) else Return(true)
  }

  /** The classes that have a registered handler, and the status each handler answers with. */
  const Handlers: map<ExcClass, int> := map[BackendException := 404, AuthException := 401, InternalServerException := 500]

  /** The first class of `mro` that has a handler: how the framework picks the handler of an
      exception. */
  function FirstHandled(mro: seq<ExcClass>, handlers: map<ExcClass, int>): (r: Option<ExcClass>)
    ensures r.None? <==> forall i :: 0 <= i < |mro| ==> mro[i] !in handlers
    ensures r.Some? ==> r.value in handlers
    ensures r.Some? ==> exists i :: (0 <= i < |mro| && mro[i] == r.value && forall j :: 0 <= j < i ==> mro[j] !in handlers)
  {
    if mro == [] then None
    else if mro[0] in handlers then Some(mro[0])
    else
      FirstHandled(mro[1..], handlers)
  }

  /** The status an exception of the family is answered with: the handler of the most derived
      class that has one. */
  function StatusFor(c: ExcClass): (status: int)
    ensures c == AuthException ==> status == 401
    ensures c == InternalServerException ==> status == 500
    ensures c == BackendException ==> status == 404
  {
    var h := FirstHandled(Mro(c), Handlers);
    if h.Some? then Handlers[h.value] else 500
  }

  /** The JSON body of a handled exception, or the framework's plain-text error page. */
  datatype Body =
    | ErrorBody(result: bool, errorType: string, errorMessage: string)
    | PlainText(text: string)

  datatype Response = Response(status: int, body: Body)

  /** The response to an exception that escapes a route: a family member goes to its handler,
      anything else to the framework's default 500 page. */
  function Respond(e: Exc): (resp: Response)
    ensures e.Backend? ==> resp.body == ErrorBody(false, e.err.info.errorType, e.err.info.errorMessage)
    ensures e.Backend? && e.err.cls == AuthException ==> resp.status == 401
    ensures e.Backend? && e.err.cls == InternalServerException ==> resp.status == 500
    ensures e.Backend? && e.err.cls == BackendException ==> resp.status == 404
    ensures !e.Backend? ==> resp == Response(500, PlainText("Internal Server Error"))
  {
    match e
    case Backend(err) => Response(StatusFor(err.cls), ErrorBody(err.result, err.errorType, err.errorMessage))
    case _ => Response(500, PlainText("Internal Server Error"))
  }

  /** Both refusals of the gate are answered with 404, not 401, and carry AUTH_ERROR. */
  lemma GateRefusalsAre404(db: Database, apiKey: string)
    requires db.AuthorsValid()
    requires apiKey == "" || (apiKey != TestKey && db.online && !ApiKeyTaken(db.authors, apiKey))
    ensures VerifyApiKey(db, apiKey).Raise?
    ensures Respond(VerifyApiKey(db, apiKey).exc).status == 404
    ensures Respond(VerifyApiKey(db, apiKey).exc).body.errorType == "AUTH_ERROR"
  {
  }

  /** A store call wrapped by `exc_handler` is never answered with 401: whatever it raises becomes
      a 500 (refused connection) or a 404 (anything else). */
  lemma WrappedCallsNever401<T>(o: Outcome<T>)
    requires o.Raise?
    ensures Respond(ExcHandler(o).exc).status == (if o.exc == ConnectionRefusedError then 500 else 404)
  {
  }
}

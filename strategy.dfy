/**
 * The AppC passport strategy of lib/strategy.js: its constructor and its
 * `authenticate` decision.
 *
 * `authenticate` is staged the way its callbacks nest:
 *   - `Decide` runs the synchronous part (session id, callback URL, login URL)
 *     and either redirects at once or asks for the session exchange;
 *   - `OnExchange` maps the reply of the exchange to a redirect, an error or
 *     a call of the application's verify callback;
 *   - `OnVerify` maps the verify callback's `done(err, user, info)` to an
 *     error, a failure or a success.
 * `Authenticate` composes them, with the exchange service and the verify
 * callback given as functions, and returns the events of the call in order.
 */
module AppcStrategy {
  import opened Wrappers
  import opened JsValues
  import opened UriEncoding
  import opened StringReplace

  const StrategyName: string := "appc"
  const DefaultAppcURL: string := "https://dashboard.appcelerator.com/?next={callbackURL}"
  const Placeholder: string := "{callbackURL}"
  const MissingVerifyMessage: string := "AppcStrategy requires a verify callback"
  const DashboardCookie: string := "dashboard.sid"
  const ConnectCookie: string := "connect.sid"
  const ExpiredCode: int := 403

  /** The fields a constructed strategy holds; none of them is reassigned later. */
  datatype Strategy = Strategy(
    name: string,
    verify: JsValue,       // `_verify`
    callbackURL: JsValue,  // `_callbackURL`
    appcURL: JsValue)      // `_appcURL`, the login URL template

  /** The TypeErrors the strategy can throw. */
  datatype TypeError =
    | MissingVerify(message: string)    // thrown by the constructor
    | CallbackURLNotString(url: JsValue) // `url.parse` of a truthy non-string
    | TemplateNotString(template: JsValue) // `_appcURL` has no `replace` method
    | VerifyNotFunction(verify: JsValue) // `_verify` cannot be called

  /** `new Strategy(options, verify)`. */
  function NewStrategy(options: JsValue, verify: JsValue): (r: Result<Strategy, TypeError>)
    // a function as the only options argument is taken as the verify callback
    ensures options.Func? ==> r == Ok(Strategy(StrategyName, options, Undefined, Str(DefaultAppcURL)))
    // construction fails exactly when no truthy verify callback is left
    ensures r.Err? <==> !options.Func? && !Truthy(verify)
    ensures r.Err? ==> r.error == MissingVerify(MissingVerifyMessage)
    ensures r.Ok? ==> r.value.name == StrategyName && Truthy(r.value.verify)
    ensures r.Ok? && !options.Func? ==> r.value.verify == verify
    // the callback URL is the options' own, absent (undefined) otherwise
    ensures r.Ok? && options.Obj? && "callbackURL" in options.props ==>
      r.value.callbackURL == options.props["callbackURL"]
    ensures r.Ok? && !(options.Obj? && "callbackURL" in options.props) ==> r.value.callbackURL == Undefined
    // the template is the options' own when truthy, the dashboard default otherwise
    ensures r.Ok? && options.Obj? && "appcURL" in options.props && Truthy(options.props["appcURL"]) ==>
      r.value.appcURL == options.props["appcURL"]
    ensures r.Ok? && !(options.Obj? && "appcURL" in options.props && Truthy(options.props["appcURL"])) ==>
      r.value.appcURL == Str(DefaultAppcURL)
  {
    var (options', verify') := if options.Func? then (Undefined, options) else (options, verify);
    var opts := Or(options', Obj(map[]));
    if !Truthy(verify') then Err(MissingVerify(MissingVerifyMessage))
    else Ok(Strategy(StrategyName, verify', Get(opts, "callbackURL"), Or(Get(opts, "appcURL"), Str(DefaultAppcURL))))
  }

  /**
   * What `authenticate` reads of the request: its parsed cookies, and the
   * URL `utils.originalURL(req, {proxy: undefined})` gives for it.
   */
  datatype Request = Request(cookies: map<string, JsValue>, originalURL: string)

  /** The Node `url` functions `authenticate` uses, as parameters. */
  datatype UrlLib = UrlLib(
    hasProtocol: string -> bool,          // `url.parse(u).protocol` is set
    resolve: (string, string) -> string)  // `url.resolve(from, to)`

  /** The reply `AppC.Auth.createSessionFromID` passes to its callback. */
  datatype ExchangeReply = ExchangeReply(err: JsValue, session: JsValue)

  /** The arguments the verify callback passes to `done`. */
  datatype VerifyReply = VerifyReply(err: JsValue, user: JsValue, info: JsValue)

  /** The four terminal actions of a passport strategy. */
  datatype Outcome =
    | Redirect(url: string)
    | Error(err: JsValue)
    | Fail(info: JsValue)
    | Success(user: JsValue, info: JsValue)

  /** The property `key` of the object whose own properties are `obj`. */
  function Property(obj: map<string, JsValue>, key: string): JsValue {
    Get(Obj(obj), key)
  }

  /** The session id: the `dashboard.sid` cookie when truthy, else the `connect.sid` cookie. */
  function SessionId(req: Request): (sid: JsValue)
    ensures Truthy(Property(req.cookies, DashboardCookie)) ==> sid == req.cookies[DashboardCookie]
    ensures !Truthy(Property(req.cookies, DashboardCookie)) ==> sid == Property(req.cookies, ConnectCookie)
    ensures Truthy(sid) <==> Truthy(Property(req.cookies, DashboardCookie)) || Truthy(Property(req.cookies, ConnectCookie))
  {
    Or(Property(req.cookies, DashboardCookie), Property(req.cookies, ConnectCookie))
  }

  /** The callback URL `authenticate` chooses before resolving it: the per-request one if truthy. */
  function ChosenCallback(s: Strategy, opts: map<string, JsValue>): JsValue {
    Or(Property(opts, "callbackURL"), s.callbackURL)
  }

  /**
   * The value `callbackURL` holds when the login URL is built, or the
   * TypeError `url.parse` throws for a truthy value that is not a string.
   * An absolute URL is kept; a relative one is resolved against the URL of
   * the request; a falsy one is kept as it is.
   */
  function CallbackURL(s: Strategy, req: Request, opts: map<string, JsValue>, lib: UrlLib): (r: Result<JsValue, TypeError>)
    ensures Truthy(Property(opts, "callbackURL")) ==> ChosenCallback(s, opts) == opts["callbackURL"]
    ensures !Truthy(Property(opts, "callbackURL")) ==> ChosenCallback(s, opts) == s.callbackURL
    ensures var c := ChosenCallback(s, opts);
      && (r.Err? <==> Truthy(c) && !c.Str?)
      && (r.Err? ==> r.error == CallbackURLNotString(c))
      && (!Truthy(c) ==> r == Ok(c))
      && (c.Str? && c.s != "" && lib.hasProtocol(c.s) ==> r == Ok(c))
      && (c.Str? && c.s != "" && !lib.hasProtocol(c.s) ==> r == Ok(Str(lib.resolve(req.originalURL, c.s))))
    ensures r.Ok? ==> r.value.Str? || !Truthy(r.value)
  {
    var c := ChosenCallback(s, opts);
    if !Truthy(c) then Ok(c)
    else if !c.Str? then Err(CallbackURLNotString(c))
    else if lib.hasProtocol(c.s) then Ok(c)
    else Ok(Str(lib.resolve(req.originalURL, c.s)))
  }

  /** The string `encodeURIComponent` converts the callback URL to. */
  function CallbackText(callback: JsValue): (t: string)
    requires callback.Str? || !Truthy(callback)
    ensures callback.Str? ==> t == callback.s
    ensures callback == Undefined ==> t == "undefined"
    ensures callback == Null ==> t == "null"
    ensures callback == Bool(false) ==> t == "false"
    ensures callback == Num(0) ==> t == "0"
  {
    if callback.Str? then callback.s else FalsyText(callback)
  }

  /** `template.replace('{callbackURL}', encodeURIComponent(callback))`. */
  function LoginURL(template: string, callback: JsValue): (r: string)
    requires callback.Str? || !Truthy(callback)
    // a template without the placeholder is kept; otherwise the text around its first placeholder is kept
    ensures IndexOf(template, Placeholder).None? ==> r == template
    ensures IndexOf(template, Placeholder).Some? ==> var i := IndexOf(template, Placeholder).value;
      |r| >= i && r[..i] == template[..i]
  {
    ReplaceFirst(template, Placeholder, EncodeURIComponent(CallbackText(callback)))
  }

  /** The synchronous part of `authenticate`. */
  datatype Decision =
    | Raise(error: TypeError)
    | Finish(outcome: Outcome)
    | Exchange(sid: JsValue, loginURL: string)

  function Decide(s: Strategy, req: Request, opts: map<string, JsValue>, lib: UrlLib): (d: Decision)
    // the exchange is asked for only with a truthy session id, and with that id
    ensures d.Exchange? <==> Truthy(SessionId(req)) && !d.Raise?
    ensures d.Exchange? ==> d.sid == SessionId(req)
    // without a session id the decision is a redirect to the login URL
    ensures d.Finish? <==> !Truthy(SessionId(req)) && !d.Raise?
    ensures d.Finish? ==> d.outcome.Redirect?
    // a throw comes from an unusable callback URL or template, never from the cookies
    ensures d.Raise? <==> CallbackURL(s, req, opts, lib).Err? || !s.appcURL.Str?
    // `url.parse` runs before `replace`, so an unusable callback URL is the error reported
    ensures d.Raise? && CallbackURL(s, req, opts, lib).Err? ==> d.error == CallbackURL(s, req, opts, lib).error
    ensures d.Raise? && CallbackURL(s, req, opts, lib).Ok? ==> d.error == TemplateNotString(s.appcURL)
    ensures !d.Raise? ==> var cb := CallbackURL(s, req, opts, lib).value;
      (d.Finish? ==> d.outcome.url == LoginURL(s.appcURL.s, cb)) &&
      (d.Exchange? ==> d.loginURL == LoginURL(s.appcURL.s, cb))
  {
    var sid := SessionId(req);
    match CallbackURL(s, req, opts, lib)
    case Err(e) => Raise(e)
    case Ok(cb) =>
      if !s.appcURL.Str? then Raise(TemplateNotString(s.appcURL))
      else
        var login := LoginURL(s.appcURL.s, cb);
        if !Truthy(sid) then Finish(Redirect(login)) else Exchange(sid, login)
  }

  /** What the callback of the session exchange does. */
  datatype AfterExchange = Done(outcome: Outcome) | Verify(session: JsValue)

  /** The error object's `code` property is 403: the session id has expired. */
  predicate Expired(err: JsValue)
    requires Truthy(err)
  {
    Get(err, "code") == Num(ExpiredCode)
  }

  function OnExchange(reply: ExchangeReply, loginURL: string): (a: AfterExchange)
    // verify is reached exactly when the exchange reports no error, with the session it gave
    ensures a.Verify? <==> !Truthy(reply.err)
    ensures a.Verify? ==> a.session == reply.session
    // an expired session id sends the user to log in again; any other error is passed on unchanged
    ensures Truthy(reply.err) && Expired(reply.err) ==> a == Done(Redirect(loginURL))
    ensures Truthy(reply.err) && !Expired(reply.err) ==> a == Done(Error(reply.err))
  {
    if Truthy(reply.err) then
      if Expired(reply.err) then Done(Redirect(loginURL)) else Done(Error(reply.err))
    else Verify(reply.session)
  }

  function OnVerify(reply: VerifyReply): (o: Outcome)
    ensures o.Error? <==> Truthy(reply.err)
    ensures o.Error? ==> o.err == reply.err
    ensures o.Fail? <==> !Truthy(reply.err) && !Truthy(reply.user)
    ensures o.Fail? ==> o.info == reply.info
    ensures o.Success? <==> !Truthy(reply.err) && Truthy(reply.user)
    ensures o.Success? ==> o.user == reply.user && o.info == reply.info
    ensures !o.Redirect?
  {
    if Truthy(reply.err) then Error(reply.err)
    else if !Truthy(reply.user) then Fail(reply.info)
    else Success(reply.user, reply.info)
  }

  /** What an `authenticate` call is seen to do, in order. */
  datatype Event =
    | ExchangeCalled(sid: JsValue)
    | VerifyCalled(verify: JsValue, session: JsValue)
    | Settled(outcome: Outcome)
    | Threw(error: TypeError)

  predicate Final(e: Event) {
    e.Settled? || e.Threw?
  }

  /**
   * `strategy.authenticate(req, opts)`, where `exchange(sid)` is the reply of
   * `AppC.Auth.createSessionFromID(sid, …)` and `verify(f, session)` is what
   * the callback `f` passes to `done` for that session.
   */
  function Authenticate(
    s: Strategy, req: Request, opts: map<string, JsValue>, lib: UrlLib,
    exchange: JsValue -> ExchangeReply, verify: (JsValue, JsValue) -> VerifyReply): (t: seq<Event>)
    // one to three events, the last of them the call's terminal action or throw
    ensures 1 <= |t| <= 3 && Final(t[|t| - 1])
    // the exchange is called, first, exactly when the synchronous part asks for it
    ensures t[0].ExchangeCalled? <==> Decide(s, req, opts, lib).Exchange?
    ensures t[0].ExchangeCalled? ==> t[0].sid == SessionId(req)
    // a call that asks for no exchange ends with its first event
    ensures !Decide(s, req, opts, lib).Exchange? ==> |t| == 1
  {
    match Decide(s, req, opts, lib)
    case Raise(e) => [Threw(e)]
    case Finish(o) => [Settled(o)]
    case Exchange(sid, login) =>
      [ExchangeCalled(sid)] +
      match OnExchange(exchange(sid), login)
      case Done(o) => [Settled(o)]
      case Verify(session) =>
        if s.verify.Func? then [VerifyCalled(s.verify, session), Settled(OnVerify(verify(s.verify, session)))]
        else [Threw(VerifyNotFunction(s.verify))]
  }
}

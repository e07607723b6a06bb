/**
 * What an `authenticate` call of lib/strategy.js does, over all requests,
 * options, exchange replies and verify callbacks.
 */
module AppcStrategyProperties {
  import opened Wrappers
  import opened JsValues
  import opened UriEncoding
  import opened StringReplace
  import opened AppcStrategy

  const DefaultLoginPrefix: string := "https://dashboard.appcelerator.com/?next="

  // ---------------------------------------------------------------------
  // The login URL

  /** A template without the placeholder is the login URL as it stands. */
  lemma LoginURLWithoutPlaceholder(template: string, callback: JsValue)
    requires callback.Str? || !Truthy(callback)
    requires forall j: nat :: !OccursAt(template, Placeholder, j)
    ensures LoginURL(template, callback) == template
  {
    ReplaceAbsent(template, Placeholder, EncodeURIComponent(CallbackText(callback)));
  }

  /**
   * The first placeholder of the template is replaced by the encoded callback
   * URL, literally (the encoding holds no `$`); all other template text,
   * later placeholders included, is kept.
   */
  lemma LoginURLSubstitutesFirst(a: string, b: string, callback: JsValue)
    requires callback.Str? || !Truthy(callback)
    requires forall j: nat :: j < |a| ==> !OccursAt(a + Placeholder + b, Placeholder, j)
    ensures LoginURL(a + Placeholder + b, callback) == a + EncodeURIComponent(CallbackText(callback)) + b
  {
    var enc := EncodeURIComponent(CallbackText(callback));
    assert forall i :: 0 <= i < |enc| ==> EncodedChar(enc[i]);
    ReplaceFirstOccurrence(a, Placeholder, b, enc);
  }

  /**
   * With the default template the login URL is the dashboard URL whose `next`
   * parameter is the encoded callback URL, and decoding that parameter gives
   * the callback URL back.
   */
  lemma DefaultLoginURL(callback: JsValue)
    requires callback.Str? || !Truthy(callback)
    ensures var enc := EncodeURIComponent(CallbackText(callback));
      LoginURL(DefaultAppcURL, callback) == DefaultLoginPrefix + enc &&
      DecodeURIComponent(enc) == Some(CallbackText(callback))
  {
    assert DefaultAppcURL == DefaultLoginPrefix + Placeholder + "";
    assert forall i :: 0 <= i < |DefaultLoginPrefix| ==> DefaultLoginPrefix[i] != '{';
    NoOccurrenceWithoutFirstChar(DefaultLoginPrefix, Placeholder, "");
    LoginURLSubstitutesFirst(DefaultLoginPrefix, "", callback);
    DecodeEncode(CallbackText(callback));
  }

  /**
   * With no callback URL configured, per request or per instance, the text
   * substituted for the placeholder is "undefined".
   */
  lemma UnconfiguredCallback(s: Strategy, req: Request, opts: map<string, JsValue>, lib: UrlLib)
    requires !Truthy(Property(opts, "callbackURL")) && s.callbackURL == Undefined
    requires s.appcURL.Str?
    ensures var d := Decide(s, req, opts, lib);
      (d.Finish? || d.Exchange?) &&
      (d.Finish? ==> d.outcome == Redirect(ReplaceFirst(s.appcURL.s, Placeholder, "undefined"))) &&
      (d.Exchange? ==> d.loginURL == ReplaceFirst(s.appcURL.s, Placeholder, "undefined"))
  {
    assert CallbackURL(s, req, opts, lib) == Ok(Undefined);
    assert CallbackText(Undefined) == "undefined";
    EncodeUndefined();
  }

  // ---------------------------------------------------------------------
  // The decision

  /** Every call ends in exactly one terminal event, its last; exchange and verify are each called at most once, in that order. */
  lemma ExactlyOneOutcome(
    s: Strategy, req: Request, opts: map<string, JsValue>, lib: UrlLib,
    exchange: JsValue -> ExchangeReply, verify: (JsValue, JsValue) -> VerifyReply)
    ensures var t := Authenticate(s, req, opts, lib, exchange, verify);
      && 1 <= |t| <= 3
      && Final(t[|t| - 1])
      && (forall i :: 0 <= i < |t| - 1 ==> !Final(t[i]))
      && (forall i :: 0 <= i < |t| && t[i].ExchangeCalled? ==> i == 0)
      && (forall i :: 0 <= i < |t| && t[i].VerifyCalled? ==> i == 1 && t[0].ExchangeCalled?)
  {
  }

  /** Without a session id no exchange and no verify happens: the user is sent to the login URL (unless a throw comes first). */
  lemma NoSessionIdRedirects(
    s: Strategy, req: Request, opts: map<string, JsValue>, lib: UrlLib,
    exchange: JsValue -> ExchangeReply, verify: (JsValue, JsValue) -> VerifyReply)
    requires !Truthy(SessionId(req))
    ensures var t := Authenticate(s, req, opts, lib, exchange, verify);
      && |t| == 1
      && Final(t[0])
      && (t[0].Settled? ==> t[0].outcome == Redirect(LoginURL(s.appcURL.s, CallbackURL(s, req, opts, lib).value)))
      && (t[0].Threw? ==> Decide(s, req, opts, lib).Raise?)
  {
  }

  /** The exchange is only ever called with a truthy session id, the one the cookies give. */
  lemma ExchangeOnlyWithSessionId(
    s: Strategy, req: Request, opts: map<string, JsValue>, lib: UrlLib,
    exchange: JsValue -> ExchangeReply, verify: (JsValue, JsValue) -> VerifyReply)
    ensures var t := Authenticate(s, req, opts, lib, exchange, verify);
      forall i :: 0 <= i < |t| && t[i].ExchangeCalled? ==> t[i].sid == SessionId(req) && Truthy(t[i].sid)
  {
  }

  /**
   * An expired session id (error code 403) always redirects to the same
   * login URL a request without cookies would be sent to; verify is not
   * called and no count of earlier attempts is kept.
   */
  lemma ExpiredSessionRedirects(
    s: Strategy, req: Request, opts: map<string, JsValue>, lib: UrlLib,
    exchange: JsValue -> ExchangeReply, verify: (JsValue, JsValue) -> VerifyReply)
    requires Decide(s, req, opts, lib).Exchange?
    requires var err := exchange(SessionId(req)).err; Truthy(err) && Expired(err)
    ensures var login := Decide(s, req, opts, lib).loginURL;
      && Authenticate(s, req, opts, lib, exchange, verify) == [ExchangeCalled(SessionId(req)), Settled(Redirect(login))]
      && Authenticate(s, req.(cookies := map[]), opts, lib, exchange, verify) == [Settled(Redirect(login))]
  {
    var req' := req.(cookies := map[]);
    assert !Truthy(SessionId(req'));
    assert CallbackURL(s, req', opts, lib) == CallbackURL(s, req, opts, lib);
  }

  /** Any other exchange error is reported as an error with the same error object; verify is not called. */
  lemma ExchangeErrorPassedOn(
    s: Strategy, req: Request, opts: map<string, JsValue>, lib: UrlLib,
    exchange: JsValue -> ExchangeReply, verify: (JsValue, JsValue) -> VerifyReply)
    requires Decide(s, req, opts, lib).Exchange?
    requires var err := exchange(SessionId(req)).err; Truthy(err) && !Expired(err)
    ensures Authenticate(s, req, opts, lib, exchange, verify) ==
      [ExchangeCalled(SessionId(req)), Settled(Error(exchange(SessionId(req)).err))]
  {
  }

  /** Verify is only called after an exchange without error, with the strategy's own callback and the session unchanged. */
  lemma VerifySeesSession(
    s: Strategy, req: Request, opts: map<string, JsValue>, lib: UrlLib,
    exchange: JsValue -> ExchangeReply, verify: (JsValue, JsValue) -> VerifyReply)
    ensures var t := Authenticate(s, req, opts, lib, exchange, verify);
      forall i :: 0 <= i < |t| && t[i].VerifyCalled? ==>
        && t[i].verify == s.verify
        && !Truthy(exchange(SessionId(req)).err)
        && t[i].session == exchange(SessionId(req)).session
  {
  }

  /** After a successful exchange the verify callback's `done(err, user, info)` decides the outcome. */
  lemma VerifyDecides(
    s: Strategy, req: Request, opts: map<string, JsValue>, lib: UrlLib,
    exchange: JsValue -> ExchangeReply, verify: (JsValue, JsValue) -> VerifyReply)
    requires Decide(s, req, opts, lib).Exchange?
    requires !Truthy(exchange(SessionId(req)).err)
    requires s.verify.Func?
    ensures var session := exchange(SessionId(req)).session;
      var reply := verify(s.verify, session);
      var t := Authenticate(s, req, opts, lib, exchange, verify);
      && |t| == 3
      && t[1] == VerifyCalled(s.verify, session)
      && (Truthy(reply.err) ==> t[2] == Settled(Error(reply.err)))
      && (!Truthy(reply.err) && !Truthy(reply.user) ==> t[2] == Settled(Fail(reply.info)))
      && (!Truthy(reply.err) && Truthy(reply.user) ==> t[2] == Settled(Success(reply.user, reply.info)))
  {
  }

  /** "undefined" is made of unreserved characters only, so it encodes to itself. */
  lemma EncodeUndefined()
    ensures EncodeURIComponent("undefined") == "undefined"
  {
    assert forall i :: 0 <= i < |"undefined"| ==> Unreserved("undefined"[i]);
    EncodeUnreserved("undefined");
  }

  /** The login URL of the default template when no callback URL is configured. */
  lemma DefaultUnconfiguredLoginURL()
    ensures LoginURL(DefaultAppcURL, Undefined) == DefaultLoginPrefix + "undefined"
  {
    DefaultLoginURL(Undefined);
    assert CallbackText(Undefined) == "undefined";
    EncodeUndefined();
  }

  /**
   * A strategy built from a verify callback alone, on a request without
   * cookies and without per-request options, redirects to the dashboard
   * with `next=undefined`.
   */
  lemma DefaultStrategyWithoutCookies(
    f: JsValue, req: Request, lib: UrlLib,
    exchange: JsValue -> ExchangeReply, verify: (JsValue, JsValue) -> VerifyReply)
    requires f.Func? && req.cookies == map[]
    ensures NewStrategy(f, Undefined).Ok?
    ensures Authenticate(NewStrategy(f, Undefined).value, req, map[], lib, exchange, verify) ==
      [Settled(Redirect(DefaultLoginPrefix + "undefined"))]
  {
    var s := NewStrategy(f, Undefined).value;
    assert s == Strategy(StrategyName, f, Undefined, Str(DefaultAppcURL));
    assert !Truthy(SessionId(req));
    assert CallbackURL(s, req, map[], lib) == Ok(Undefined);
    DefaultUnconfiguredLoginURL();
  }
}

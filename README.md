# passport-appc strategy, modelled in Dafny

passport-appc is a passport authentication strategy. It signs a user in from
the AppC session cookie that all Appcelerator domains share. Its logic is in
`lib/strategy.js`, and this model covers two parts of it.

- **The constructor** `new Strategy(options, verify)`.
  - When the first argument is a function, that function becomes `verify`: a second argument is discarded and the options become `{}`.
  - When no verify callback is given, it throws a TypeError.
  - Otherwise it fixes `name = 'appc'`, `_verify`, `_callbackURL`, and `_appcURL`, the login-URL template, which defaults to `https://dashboard.appcelerator.com/?next={callbackURL}`.
  - `AppcStrategy.NewStrategy` models it as a function from the two arguments to either the strategy's fields (an immutable `Strategy` record) or the thrown TypeError.
- **`authenticate(req, options)`**. It takes the session id from the `dashboard.sid` or `connect.sid` cookie and chooses a callback URL. It then builds the login URL by putting the percent-encoded callback URL in place of the template's first `{callbackURL}`. The call ends in exactly one of `redirect`, `error`, `fail` or `success`, or it throws a TypeError (the callback URL or the template is truthy but not a string, or `verify` is not a function). The model has three stages, each a function:
  - `Decide` covers the synchronous part. It either redirects straight away or asks for the session exchange.
  - `OnExchange` maps the reply of `AppC.Auth.createSessionFromID` to a redirect (expired id, code 403), an error, or a call of `verify`.
  - `OnVerify` maps the `done(err, user, info)` of the verify callback to an error, a failure or a success.

  `Authenticate` composes the three stages. It takes the exchange service and the verify callback as function parameters. It returns the events of the call, in order: the exchange call, the verify call, and the one terminal action or throw.

JavaScript values are modelled by the `JsValues.JsValue` datatype, with JavaScript truthiness (`Truthy`) and `||` (`Or`). So `options || {}`, `options.appcURL || default` and `if (!sid)` follow the language exactly. Two ECMAScript library functions that the login URL depends on are modelled with their proofs:
- `encodeURIComponent`, in `UriEncoding`. Its decoder is modelled too, with the round trip `decodeURIComponent(encodeURIComponent(s)) === s`.
- `String.prototype.replace` with a string pattern, in `StringReplace`. Only the first occurrence is replaced, and the replacement's `$` patterns are expanded.

`lib/strategy.js` keeps no session-status key, has no callback round-trip
flag and no trust-proxy option, and does not check that the request has
session support. The model follows the code:
- A 403 from the exchange redirects to the login URL every time. No retry is counted, and a second consecutive 403 is not turned into an error.
- The trust-proxy value passed to `utils.originalURL` is `this._trustProxy`, which is never assigned and so is always undefined.
- With no callback URL configured, the text substituted into the template is `encodeURIComponent(undefined)`, that is `"undefined"`.

## Model

| member | source | states |
|---|---|---|
| AppcStrategy.NewStrategy | lib/strategy.js:55-71 | a function as first argument becomes verify and options become `{}`; construction throws the "requires a verify callback" TypeError exactly when no truthy verify is left; otherwise name is 'appc', `_callbackURL` is the options' own callbackURL (undefined when absent) and `_appcURL` is options.appcURL when truthy, else the dashboard default |
| AppcStrategy.SessionId | lib/strategy.js:90 | the sid is the `dashboard.sid` cookie when truthy, otherwise the `connect.sid` cookie; a sid exists iff one of the two is truthy |
| AppcStrategy.CallbackURL | lib/strategy.js:94-104 | the per-request callbackURL when truthy, else the instance's; a URL with a protocol is kept unchanged, only a protocol-less one is resolved against the request's original URL; a falsy one is kept; a truthy non-string makes `url.parse` throw |
| AppcStrategy.CallbackText | lib/strategy.js:106 | the string `encodeURIComponent` receives: the callback URL itself, or JavaScript's string of a falsy value ("undefined" when none is configured, "null", "false", "0") |
| AppcStrategy.Decide | lib/strategy.js:85-110 | the exchange is requested iff the sid is truthy (and nothing threw), always with that sid; without a sid the decision is a redirect to the login URL; a throw happens iff the callback URL or the template is unusable, and it is the callback URL's TypeError whenever that one is unusable, since `url.parse` runs before `replace` |
| AppcStrategy.OnExchange | lib/strategy.js:119-130 | verify is reached iff the exchange reports no error, with its session unchanged; an error with code 403 redirects to the login URL; any other error is passed on as the same error object |
| AppcStrategy.LoginURL | lib/strategy.js:106 | the template with its first `{callbackURL}` replaced by the encoded callback URL: a template without the placeholder is kept, and the text before the first placeholder is always kept (the rest is stated by LoginURLSubstitutesFirst and LoginURLWithoutPlaceholder) |
| AppcStrategy.OnVerify | lib/strategy.js:132-143 | `err` set gives Error(err); else a falsy user gives Fail(info); else Success(user, info); never a redirect |
| AppcStrategy.Authenticate | lib/strategy.js:85-146 | the events of one `authenticate` call: one to three, the last the terminal action or throw; the exchange is called first, with the cookies' session id, exactly when the synchronous part asks for it; otherwise the call has a single event (its outcomes are stated by ExactlyOneOutcome through VerifyDecides) |
| AppcStrategyProperties.ExactlyOneOutcome | lib/strategy.js:108-145 | every authenticate call ends in exactly one terminal event (a sink or a throw), its last; the exchange is called at most once and first, verify at most once and only right after it |
| AppcStrategyProperties.NoSessionIdRedirects | lib/strategy.js:108-110 | without a sid there is one event only, a redirect to the login URL (or an earlier throw): the exchange and verify are never invoked |
| AppcStrategyProperties.ExchangeOnlyWithSessionId | lib/strategy.js:108-113 | the exchange is only ever called with the truthy sid the cookies give |
| AppcStrategyProperties.ExpiredSessionRedirects | lib/strategy.js:119-126 | an exchange error with code 403 always ends in a redirect to the same login URL a request without cookies gets, with verify not called |
| AppcStrategyProperties.ExchangeErrorPassedOn | lib/strategy.js:127-129 | any other exchange error ends the call with Error carrying that same error object, verify not called |
| AppcStrategyProperties.VerifySeesSession | lib/strategy.js:132 | verify is called only after an error-free exchange, as the strategy's own `_verify`, with the session unchanged |
| AppcStrategyProperties.VerifyDecides | lib/strategy.js:132-143 | after a successful exchange the call has three events and the last is Error(err), Fail(info) or Success(user, info) as `done` decides |
| AppcStrategyProperties.LoginURLWithoutPlaceholder | lib/strategy.js:106 | a template without `{callbackURL}` is the login URL unchanged |
| AppcStrategyProperties.LoginURLSubstitutesFirst | lib/strategy.js:106 | only the first `{callbackURL}` is replaced, by the encoded callback URL inserted literally; all other template text, later placeholders included, is kept |
| AppcStrategyProperties.DefaultLoginURL | lib/strategy.js:106 | with the default template the login URL is `https://dashboard.appcelerator.com/?next=` followed by the encoded callback URL, and decoding that parameter gives the callback URL back |
| AppcStrategyProperties.UnconfiguredCallback | lib/strategy.js:94-106 | with no callback URL configured the placeholder is replaced by "undefined" |
| AppcStrategyProperties.EncodeUndefined | lib/strategy.js:106 | `encodeURIComponent(undefined)` substitutes the text "undefined" unchanged |
| AppcStrategyProperties.DefaultUnconfiguredLoginURL | lib/strategy.js:106 | the default template with no callback URL gives `https://dashboard.appcelerator.com/?next=undefined` |
| AppcStrategyProperties.DefaultStrategyWithoutCookies | lib/strategy.js:55-110 | a strategy constructed from a verify function alone redirects a cookie-less request to the dashboard with `next=undefined` |
| UriEncoding.EncodeURIComponent | lib/strategy.js:106 | the encoding is at least as long as its input and holds only unreserved characters, `%` and upper-case hex digits (so never `$`, `&`, `#` or `{`) |
| UriEncoding.DecodeEncode | lib/strategy.js:106 | `decodeURIComponent(encodeURIComponent(s)) === s` for every string of Unicode scalar values |
| UriEncoding.EncodeUnreserved | lib/strategy.js:106 | a string of unreserved characters is its own encoding |
| UriEncoding.Utf8RoundTrip | lib/strategy.js:106 | the UTF-8 octets of every code point have a valid lead octet for their length and decode back to it |
| StringReplace.IndexOf | lib/strategy.js:106 | the position found is an occurrence with no earlier one; none is found iff the pattern does not occur |
| StringReplace.ReplaceFirst | lib/strategy.js:106 | `String.prototype.replace` with a string pattern: without an occurrence the string is kept; otherwise the text before the first occurrence and the text after it are kept around the replacement (ReplaceFirstOccurrence states that a `$`-free replacement is inserted literally) |
| StringReplace.SubstitutionLiteral | lib/strategy.js:106 | a replacement without `$` is inserted literally by GetSubstitution |
| StringReplace.ReplaceAbsent | lib/strategy.js:106 | a string without the pattern comes back unchanged |
| StringReplace.ReplaceFirstOccurrence | lib/strategy.js:106 | when the first occurrence follows the prefix `a`, exactly that occurrence is replaced by a `$`-free replacement and the rest is kept |

## Left out

- `passport.Strategy` inheritance and the `redirect`/`error`/`fail`/`success` methods it provides (lib/strategy.js:66,76): the model returns the terminal action as an `Outcome` value inside the event sequence.
- `AppC.Auth.createSessionFromID` (lib/strategy.js:113) is a network call into an SDK that is not part of this model. Its reply is a function parameter. Its asynchrony is not modelled, and it is assumed to call back exactly once. So the `VerifyNotFunction` throw, raised when `_verify` is truthy but not callable, is shown as the last event of `Authenticate`. In the source it happens inside the exchange callback (lib/strategy.js:132), after `authenticate` has returned, and no passport action is ever taken.
- The application's verify callback is a function parameter giving what it passes to `done`. A callback that throws, never calls `done`, or calls it twice is not modelled.
- `url.parse(...).protocol`, `url.resolve` and `utils.originalURL` (lib/strategy.js:96-102) are Node library code, and lib/utils.js is not part of this model. The protocol test and resolution are parameters, and the original URL is a field of the request (`utils.originalURL` with `proxy` undefined, since `_trustProxy` is never assigned).
- `console.log` and `util.inspect` (lib/strategy.js:92,116-117) only print debugging output.
- A request without `req.cookies`, and `authenticate` called without an options object, both throw a TypeError in the source. The model always has a cookie map and an options map.
- Numbers are integers: NaN, -0 and fractional numbers are not modelled (`encodeURIComponent(NaN)` would give "NaN").
- Strings are sequences of Unicode scalar values. A lone UTF-16 surrogate, on which `encodeURIComponent` throws a URIError, cannot be represented.
- Functions carry no properties, and objects only their own enumerable ones. A truthy non-string template is always a TypeError, which leaves out an object with its own `replace` method.
- lib/index.js only re-exports the constructor and the SDK and loads the package version. Gruntfile.js is lint configuration.

/** `AuthInterceptor.preHandle`: the decision whether a request reaches its
    handler or is answered 401. The authentication service's three answers
    (token validation, whether the site is initialised, whether a password
    is set) are parameters. */
module Auth {
  import opened Common
  import opened Strings

  /** Paths served without a token, matched as raw prefixes. */
  const Whitelist: seq<string> := ["/api/auth/login", "/api/auth/status", "/api/auth/setup", "/api/file"]

  const BearerPrefix := "Bearer "

  datatype Request = Request(verb: string, path: string, authorization: Option<string>)

  /** The authentication service: `validate` answers whether a token is
      accepted (it throws otherwise). */
  datatype Service = Service(validate: string -> bool, initialized: bool, passwordSet: bool)

  datatype Decision = Allow | Unauthorized

  predicate Whitelisted(path: string) {
    exists i :: 0 <= i < |Whitelist| && StartsWith(path, Whitelist[i])
  }

  /** The bearer token of the request, when its header has text and starts
      with "Bearer ". */
  function BearerToken(req: Request): (r: Option<string>)
    ensures r.Some? <==> req.authorization.Some? && StartsWith(req.authorization.value, BearerPrefix)
    ensures r.Some? ==> req.authorization.value == BearerPrefix + r.value
  {
    match req.authorization
    case None => None
    case Some(h) =>
      assert StartsWith(h, BearerPrefix) ==> HasText(h) by {
        if StartsWith(h, BearerPrefix) {
          assert h[0] == 'B';
        }
      }
      if HasText(h) && StartsWith(h, BearerPrefix) then
        assert h == h[..7] + h[7..];
        Some(h[7..])
      else
        None
  }

  /** `preHandle`. */
  function PreHandle(req: Request, auth: Service): (d: Decision)
    ensures EqualsIgnoreCase("OPTIONS", req.verb) ==> d == Allow
    ensures Whitelisted(req.path) ==> d == Allow
    ensures !EqualsIgnoreCase("OPTIONS", req.verb) && !Whitelisted(req.path) && BearerToken(req).Some? ==>
              (d == Allow <==> auth.validate(BearerToken(req).value))
    ensures !EqualsIgnoreCase("OPTIONS", req.verb) && !Whitelisted(req.path) && BearerToken(req).None? ==>
              (d == Allow <==> auth.initialized && !auth.passwordSet)
  {
    if EqualsIgnoreCase("OPTIONS", req.verb) then Allow
    else if Whitelisted(req.path) then Allow
    else match BearerToken(req)
      case Some(token) => if auth.validate(token) then Allow else Unauthorized
      case None => if !auth.initialized then Unauthorized else if auth.passwordSet then Unauthorized else Allow
  }

  /** The whitelist is a raw prefix match: "/api/files..." passes as well. */
  lemma RawPrefixWhitelist(verb: string, rest: string, authorization: Option<string>, auth: Service)
    ensures PreHandle(Request(verb, "/api/files" + rest, authorization), auth) == Allow
  {
    var path := "/api/files" + rest;
    assert path[..|Whitelist[3]|] == Whitelist[3];
  }

  /** A header that does not start with "Bearer " counts as no header. */
  lemma OtherHeaderIsNoToken(req: Request, auth: Service)
    requires req.authorization.Some? && !StartsWith(req.authorization.value, BearerPrefix)
    ensures PreHandle(req, auth) == PreHandle(req.(authorization := None), auth)
  {
  }

  /** A rejected bearer token is final: the request is refused even where
      the same request without a header would pass. */
  lemma RejectedTokenNoFallthrough(req: Request, auth: Service)
    requires !EqualsIgnoreCase("OPTIONS", req.verb) && !Whitelisted(req.path)
    requires BearerToken(req).Some? && !auth.validate(BearerToken(req).value)
    requires auth.initialized && !auth.passwordSet
    ensures PreHandle(req, auth) == Unauthorized
    ensures PreHandle(req.(authorization := None), auth) == Allow
  {
  }

  /** Once a password is set, a request past the interceptor is a preflight,
      a whitelisted path, or carries a token the service validates. */
  lemma PasswordGuards(req: Request, auth: Service)
    requires auth.passwordSet && PreHandle(req, auth) == Allow
    ensures || EqualsIgnoreCase("OPTIONS", req.verb)
            || Whitelisted(req.path)
            || (BearerToken(req).Some? && auth.validate(BearerToken(req).value))
  {
  }
}

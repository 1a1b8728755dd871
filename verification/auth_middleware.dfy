/** The middleware that guards protected routes with a bearer token. */
module AuthMiddleware {
  import opened Wrappers
  import opened Entities
  import opened Http
  import opened JsString

  const NoTokenMessage: string := "No Token"
  const UnauthorizedMessage: string := "UnAuthorized"

  /**
   * `authHeader.split(" ")[1]`: the piece after the first space, up to the next
   * space. It exists exactly when the header contains a space.
   */
  function ExtractToken(header: string): (token: Option<string>)
    ensures token.Some? <==> ' ' in header
    ensures token.Some? ==> ' ' !in token.value
  {
    var parts := Split(header, ' ');
    if |parts| > 1 then Some(parts[1]) else None
  }

  /**
   * The token is recovered from any header of the form `scheme + " " + token + rest`
   * in which scheme and token have no space and rest is empty or starts with one.
   */
  lemma {:induction false} ExtractTokenOf(scheme: string, token: string, rest: string)
    requires ' ' !in scheme && ' ' !in token
    requires rest == [] || rest[0] == ' '
    ensures ExtractToken(scheme + " " + token + rest) == Some(token)
  {
    var header := scheme + " " + token + rest;
    assert header == scheme + [' '] + (token + rest);
    SplitAfterPiece(scheme, token + rest, ' ');
    if rest == [] {
      assert token + rest == token;
      assert Split(token, ' ') == [token];
    } else {
      assert token + rest == token + [' '] + rest[1..];
      SplitAfterPiece(token, rest[1..], ' ');
    }
  }

  /** What the gate decides for a request. */
  datatype GateOutcome = NoToken | Unauthorized | Pass(claims: Claims)

  /**
   * The gate's decision for an Authorization header, given the token verifier
   * (`jwt.verify` with the configured secret; `None` is a verification error).
   * A missing token (`undefined`) fails verification.
   */
  function Gate(header: Option<string>, verify: string -> Option<Claims>): (r: GateOutcome)
    ensures r == NoToken <==> header.None?
    ensures header.Some? && ' ' !in header.value ==> r == Unauthorized
    ensures r.Pass? ==> exists token :: ExtractToken(header.value) == Some(token) && verify(token) == Some(r.claims)
    ensures header.Some? && ExtractToken(header.value).Some? ==>
      r == match verify(ExtractToken(header.value).value)
           case Some(c) => Pass(c)
           case None => Unauthorized
  {
    if header.None? then NoToken
    else match ExtractToken(header.value)
      case None => Unauthorized
      case Some(token) =>
        match verify(token)
        case None => Unauthorized
        case Some(claims) => Pass(claims)
  }

  /**
   * `auth(req, res, next)`: answers 401 "No Token" or 401 "UnAuthorized" and
   * leaves the request alone, or stores the claims in `req.user` and calls
   * `next()` exactly once (answering nothing itself).
   */
  method Auth(req: Request, verify: string -> Option<Claims>) returns (resp: Option<Response>)
    modifies req
    ensures Gate(req.authorization, verify) == NoToken ==>
      resp == Some(Reject(401, NoTokenMessage)) && req.user == old(req.user) && req.nextCalls == old(req.nextCalls)
    ensures Gate(req.authorization, verify) == Unauthorized ==>
      resp == Some(Reject(401, UnauthorizedMessage)) && req.user == old(req.user) && req.nextCalls == old(req.nextCalls)
    ensures Gate(req.authorization, verify).Pass? ==>
      resp == None && req.user == Some(Gate(req.authorization, verify).claims) && req.nextCalls == old(req.nextCalls) + 1
  {
    var authHeader := req.authorization;
    if authHeader.None? {
      return Some(Reject(401, NoTokenMessage));
    }
    var token := ExtractToken(authHeader.value);
    var decoded := if token.Some? then verify(token.value) else None;
    if decoded.None? {
      return Some(Reject(401, UnauthorizedMessage));
    }
    req.user := decoded;
    req.nextCalls := req.nextCalls + 1;
    resp := None;
  }
}

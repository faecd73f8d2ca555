/** The two Express middlewares guarding the API: `authenticateToken` refuses a
    request without a verifiable bearer token, `optionalAuth` lets every request
    through and only attaches the decoded token when there is one. */
module Middleware {
  import opened Wrappers
  import opened JsText

  // ---------------------------------------------------------------- verifyToken

  /** What `jwt.verify` did with a token: returned the decoded payload `P`, or
      threw an error carrying `message`. */
  datatype JwtOutcome<P> = Decoded(payload: P) | Threw(message: string)

  /** `{ success: true, decoded }` or `{ success: false, error }`. */
  datatype VerifyResult<P> = VerifySuccess(decoded: P) | VerifyFailure(error: string)

  /** The message reported when the thrown error has an empty one. */
  const VerifyFallbackError := " Token verification failed"

  /** `verifyToken`: `jwtVerify` stands for `jwt.verify(token, JWT_SECRET)`. A
      failure always carries a non-empty message: the thrown one, or the fallback
      when `error.message` is empty. */
  function VerifyToken<P>(token: string, jwtVerify: string -> JwtOutcome<P>): (r: VerifyResult<P>)
    ensures r.VerifySuccess? <==> jwtVerify(token).Decoded?
    ensures r.VerifySuccess? ==> r.decoded == jwtVerify(token).payload
    ensures r.VerifyFailure? ==> r.error != []
    ensures r.VerifyFailure? && jwtVerify(token).message != [] ==> r.error == jwtVerify(token).message
  {
    match jwtVerify(token)
    case Decoded(p) => VerifySuccess(p)
    case Threw(m) => VerifyFailure(if m == [] then VerifyFallbackError else m)
  }

  // ---------------------------------------------------------------- the header

  /** `authHeader && authHeader.split(" ")[1]`: nothing when the header is absent,
      the empty header itself when it is empty, otherwise the second space-separated
      field, which is absent when the header holds no space. */
  function HeaderToken(header: Option<string>): (token: Option<string>)
    ensures header.None? ==> token.None?
    ensures header == Some([]) ==> token == Some([])
    ensures token.Some? ==> ' ' !in token.value
    ensures header.Some? && header.value != [] ==> (token.Some? <==> ' ' in header.value)
  {
    match header
    case None => None
    case Some(h) =>
      if h == [] then Some(h)
      else
        var parts := Split(h, ' ');
        if |parts| >= 2 then Some(parts[1])
        else
          assert ' ' !in h by {
            assert parts[0] == Join(parts, [' ']);
          }
          None
  }

  /** The field between the first and the second space of `h` (or the end of `h`). */
  function SecondField(h: string): (t: string)
    requires ' ' in h
    ensures ' ' !in t
    ensures var k := IndexOf(h, ' ');
      && k + 1 + |t| <= |h| && h[k + 1..k + 1 + |t|] == t
      && (k + 1 + |t| == |h| || h[k + 1 + |t|] == ' ')
  {
    var k := IndexOf(h, ' ');
    var rest := h[k + 1..];
    if ' ' in rest then rest[..IndexOf(rest, ' ')] else rest
  }

  lemma SplitTwoFields(a: string, b: string)
    requires ' ' !in a && ' ' !in b
    ensures Split(a + [' '] + b, ' ') == [a, b]
  {
    var parts := [a, b];
    assert parts[1..] == [b];
    SplitUnique(a + [' '] + b, ' ', parts);
  }

  lemma SplitFirstField(a: string, rest: string)
    requires ' ' !in a
    ensures Split(a + [' '] + rest, ' ') == [a] + Split(rest, ' ')
  {
    var parts := [a] + Split(rest, ' ');
    assert parts[1..] == Split(rest, ' ');
    forall i | 0 <= i < |parts| ensures ' ' !in parts[i] {
      if i > 0 {
        assert parts[i] == Split(rest, ' ')[i - 1];
      }
    }
    SplitUnique(a + [' '] + rest, ' ', parts);
  }

  /** Whatever the scheme word before the first space (`Bearer`, `Basic` or anything
      else), the token is the field that follows it. */
  lemma {:induction false} TokenFollowsAnyScheme(scheme: string, t: string, rest: string)
    requires ' ' !in scheme && ' ' !in t
    ensures HeaderToken(Some(scheme + " " + t)) == Some(t)
    ensures HeaderToken(Some(scheme + " " + t + " " + rest)) == Some(t)
  {
    SplitTwoFields(scheme, t);
    assert scheme + " " + t == scheme + [' '] + t;
    SplitFirstField(scheme, t + " " + rest);
    SplitFirstField(t, rest);
    assert scheme + " " + t + " " + rest == scheme + [' '] + (t + [' '] + rest);
  }

  /** The header's token is exactly the second field of the header. */
  lemma {:induction false} BearerTokenIsSecondField(h: string)
    requires ' ' in h
    ensures HeaderToken(Some(h)) == Some(SecondField(h))
  {
    var k := IndexOf(h, ' ');
    var scheme, rest := h[..k], h[k + 1..];
    assert h == scheme + [' '] + rest;
    SplitFirstField(scheme, rest);
    var parts := Split(rest, ' ');
    if ' ' in rest {
      var j := IndexOf(rest, ' ');
      assert rest == rest[..j] + [' '] + rest[j + 1..];
      SplitFirstField(rest[..j], rest[j + 1..]);
    } else {
      assert Split(rest, ' ') == [rest];
    }
  }

  // ---------------------------------------------------------------- the middlewares

  /** The JSON error body the middleware answers with, and its HTTP status. */
  datatype Response = Response(status: int, error: string, code: string)

  /** What a middleware does with the request: answers it, or passes it on with
      `req.tokenData` set to the decoded token or left unset. */
  datatype Outcome<P> = Reject(response: Response) | Next(tokenData: Option<P>)

  const Unauthorized := 401
  const MissingTokenResponse := Response(Unauthorized, "Access token required", "TOKEN_MISSING")
  const InvalidTokenCode := "TOKEN_INVALID"

  /** `authenticateToken`: a missing or empty token is refused as `TOKEN_MISSING`, a
      token `jwt.verify` rejects as `TOKEN_INVALID` with its message, and a verified
      one is attached to the request. */
  function AuthenticateToken<P>(header: Option<string>, jwtVerify: string -> JwtOutcome<P>): (r: Outcome<P>)
    ensures r.Next? <==> !Falsy(HeaderToken(header)) && jwtVerify(HeaderToken(header).value).Decoded?
    ensures r.Next? ==> r.tokenData == Some(jwtVerify(HeaderToken(header).value).payload)
    ensures r.Reject? ==> r.response.status == Unauthorized
    ensures r == Reject(MissingTokenResponse) <==> Falsy(HeaderToken(header))
    ensures r.Reject? && !Falsy(HeaderToken(header)) ==>
      r.response.code == InvalidTokenCode && r.response.error != []
      && r.response.error == VerifyToken(HeaderToken(header).value, jwtVerify).error
  {
    var token := HeaderToken(header);
    if Falsy(token) then Reject(MissingTokenResponse)
    else match VerifyToken(token.value, jwtVerify)
      case VerifyFailure(e) => Reject(Response(Unauthorized, e, InvalidTokenCode))
      case VerifySuccess(d) => Next(Some(d))
  }

  /** `optionalAuth`: never refuses; the decoded token is attached exactly when
      there is a non-empty token that verifies. */
  function OptionalAuth<P>(header: Option<string>, jwtVerify: string -> JwtOutcome<P>): (r: Outcome<P>)
    ensures r.Next?
    ensures r.tokenData.Some? <==> !Falsy(HeaderToken(header)) && jwtVerify(HeaderToken(header).value).Decoded?
  {
    var token := HeaderToken(header);
    if !Falsy(token) then
      match VerifyToken(token.value, jwtVerify)
      case VerifySuccess(d) => Next(Some(d))
      case VerifyFailure(_) => Next(None)
    else Next(None)
  }

  /** The optional middleware attaches what the strict one would, and lets through
      unauthenticated exactly the requests the strict one refuses. */
  lemma OptionalAuthAgrees<P>(header: Option<string>, jwtVerify: string -> JwtOutcome<P>)
    ensures AuthenticateToken(header, jwtVerify).Next? ==>
      OptionalAuth(header, jwtVerify) == AuthenticateToken(header, jwtVerify)
    ensures AuthenticateToken(header, jwtVerify).Reject? ==> OptionalAuth(header, jwtVerify) == Next(None)
  {
  }

  /** A header without a space, such as a bare `"Bearer"`, carries no token. */
  lemma NoSpaceMeansMissing<P>(h: string, jwtVerify: string -> JwtOutcome<P>)
    requires ' ' !in h
    ensures AuthenticateToken(Some(h), jwtVerify) == Reject(MissingTokenResponse)
  {
  }

  /** Two spaces after the scheme leave an empty second field: refused as missing,
      even when a token follows. */
  lemma DoubleSpaceMeansMissing<P>(scheme: string, rest: string, jwtVerify: string -> JwtOutcome<P>)
    requires ' ' !in scheme
    ensures AuthenticateToken(Some(scheme + "  " + rest), jwtVerify) == Reject(MissingTokenResponse)
  {
    TokenFollowsAnyScheme(scheme, [], rest);
    assert scheme + "  " + rest == scheme + " " + [] + " " + rest;
  }
}

/**
 * The token helpers of the API. Password hashing, token signing and token verification
 * are library calls; they appear as function parameters of the handlers. What is
 * modelled is the logic around them: the exception-to-null wrapper `verifyToken` and
 * the `Authorization: Bearer` header parser (section 2.1 of RFC 6750).
 */
module Auth {
  import opened Wrappers
  import opened Json

  /** The case-sensitive scheme prefix, trailing space included. */
  const BearerPrefix: string := "Bearer "

  /** The claims `createToken` signs; the library adds `iat` and a seven-day `exp`. */
  datatype TokenClaims = TokenClaims(userId: int, username: string)

  /** `verifyToken`: the verifier's payload, or `null` whenever the library throws. */
  function VerifyToken(verify: string -> Result<Value, string>, token: string): (r: Option<Value>)
    ensures r.Some? <==> verify(token).Success?
    ensures r.Some? ==> r.value == verify(token).value
  {
    match verify(token)
    case Success(payload) => Some(payload)
    case Failure(_) => None
  }

  /** `extractTokenFromHeader`: the header with the `Bearer ` prefix stripped, or `null`. */
  function ExtractTokenFromHeader(authHeader: Option<string>): (r: Option<string>)
    ensures r.Some? <==> authHeader.Some? && BearerPrefix <= authHeader.value
    ensures r.Some? ==> authHeader.value == BearerPrefix + r.value
    ensures r.Some? ==> |r.value| == |authHeader.value| - |BearerPrefix|
  {
    if authHeader.None? || authHeader.value == "" || !(BearerPrefix <= authHeader.value) then None
    else Some(authHeader.value[|BearerPrefix|..])
  }

  /** Prefixing any token with `Bearer ` and extracting it gives the token back, the empty one included. */
  lemma BearerRoundTrip(token: string)
    ensures ExtractTokenFromHeader(Some(BearerPrefix + token)) == Some(token)
  {
    assert BearerPrefix <= BearerPrefix + token;
  }

  /** The scheme is matched case-sensitively: a lower-case `bearer ` header is refused. */
  lemma SchemeIsCaseSensitive(token: string)
    ensures ExtractTokenFromHeader(Some("bearer " + token)) == None
  {
    assert ("bearer " + token)[0] == 'b';
  }
}

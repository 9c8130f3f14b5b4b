/**
 * `GET /api/auth/me`: the current session's user or `null`, with status 200. The token comes
 * from the `token` cookie and goes through the full signature check (`verifyToken`); the
 * verifier is a parameter. The handler has no `try`: a `userId` whose numeric conversion
 * throws escapes it, and the framework answers 500.
 */
module MeRoute {
  import opened Wrappers
  import opened Json
  import opened Schema
  import opened Auth

  datatype Response = Response(status: int, user: Option<PublicUser>)

  /** The status the framework sends when an exception escapes a route handler. */
  const UnhandledErrorStatus := 500

  /** `findUnique({ where: { id: Number(userId) } })`; NaN and non-integral numbers find no row. */
  function LookupClaimedUser(users: seq<User>, userId: Value): (r: Option<User>)
    ensures r.Some? ==> r.value in users && ToNumber(userId) == Number(r.value.id as real)
  {
    match ToNumber(userId)
    case Number(n) => if n.Floor as real == n then FindUserById(users, n.Floor) else None
    case _ => None
  }

  /** The `GET` handler. */
  function Get(users: seq<User>, tokenCookie: Option<string>, verify: string -> Result<Value, string>): (r: Response)
    ensures r.status == 200 || r.status == UnhandledErrorStatus
    ensures r.status == UnhandledErrorStatus <==>
      && tokenCookie.Some? && tokenCookie.value != ""
      && VerifyToken(verify, tokenCookie.value).Some?
      && Truthy(VerifyToken(verify, tokenCookie.value).value)
      && ToNumber(Property(VerifyToken(verify, tokenCookie.value).value, "userId")).TypeError?
    ensures r.status == UnhandledErrorStatus ==> r.user == None
    ensures tokenCookie.None? || tokenCookie.value == "" ==> r.user == None
    ensures r.user.Some? ==> exists u :: u in users && r.user.value == PublicView(u)
    ensures r.user.Some? ==>
      && VerifyToken(verify, tokenCookie.value).Some?
      && Truthy(Property(VerifyToken(verify, tokenCookie.value).value, "userId"))
      && ToNumber(Property(VerifyToken(verify, tokenCookie.value).value, "userId")) == Number(r.user.value.id as real)
  {
    var token := if tokenCookie.None? then "" else tokenCookie.value;
    if token == "" then Response(200, None)
    else
      match VerifyToken(verify, token)
      case None => Response(200, None)
      case Some(decoded) =>
        if !Truthy(decoded) || !Truthy(Property(decoded, "userId")) then Response(200, None)
        else if ToNumber(Property(decoded, "userId")).TypeError? then Response(UnhandledErrorStatus, None)
        else
          match LookupClaimedUser(users, Property(decoded, "userId"))
          case None => Response(200, None)
          case Some(user) => Response(200, Some(PublicView(user)))
  }

  /** A token that fails verification, or carries no truthy `userId`, yields `user: null`. */
  lemma RejectedTokenGivesNoUser(users: seq<User>, token: string, verify: string -> Result<Value, string>)
    requires verify(token).Failure? || !Truthy(Property(verify(token).value, "userId"))
    ensures Get(users, Some(token), verify) == Response(200, None)
  {
  }

  /** A verified `userId` object carrying its own `toString` key makes `Number(...)` throw: the answer is a 500. */
  lemma UnconvertibleUserIdFails(users: seq<User>, token: string, verify: string -> Result<Value, string>)
    requires token != ""
    requires verify(token).Success? && verify(token).value.Obj?
    requires Property(verify(token).value, "userId").Obj? && "toString" in Property(verify(token).value, "userId").fields
    ensures Get(users, Some(token), verify) == Response(UnhandledErrorStatus, None)
  {
  }

  /**
   * Register, log in, ask `me`: when the verifier returns a payload whose `userId` is the stored
   * user's id, `me` answers with that same user.
   */
  lemma MeReflectsTokenOwner(users: seq<User>, user: User, token: string, verify: string -> Result<Value, string>)
    requires UniqueAccounts(users)
    requires user in users && user.id >= 1
    requires token != ""
    requires verify(token).Success? && verify(token).value.Obj?
    requires Property(verify(token).value, "userId") == Num(user.id as real)
    ensures Get(users, Some(token), verify) == Response(200, Some(PublicView(user)))
  {
    FindByIdIsUnique(users, user);
    assert (user.id as real).Floor == user.id;
  }
}

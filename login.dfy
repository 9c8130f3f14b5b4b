/**
 * `POST /api/auth/login`: presence check, lookup by username, password check through
 * the hash library's compare, then a token over `{ userId, username }` and the public
 * user fields in the body. The handler only reads the user table.
 */
module LoginRoute {
  import opened Wrappers
  import opened Schema
  import opened Auth

  /** The JSON body; a missing field is the empty string. */
  datatype LoginRequest = LoginRequest(username: string, password: string)

  datatype Body = Error(error: string) | LoggedIn(message: string, user: PublicUser, token: string)

  datatype Response = Response(status: int, body: Body)

  const MissingFieldsMessage: string := "Необходимо указать username и password"
  /** One message for an unknown user and for a wrong password. */
  const InvalidCredentialsMessage: string := "Неверный username или пароль"
  const LoggedInMessage: string := "Успешная авторизация"

  /** The `POST` handler; `verifyPassword` is bcrypt's compare and `createToken` the signer. */
  function Post(users: seq<User>, req: LoginRequest,
                verifyPassword: (string, string) -> bool, createToken: TokenClaims -> string): (r: Response)
    ensures r.status == 200 || r.status == 400 || r.status == 401
    ensures r.status == 400 <==> req.username == "" || req.password == ""
    ensures r.status == 400 ==> r.body == Error(MissingFieldsMessage)
    ensures r.status == 401 ==> r.body == Error(InvalidCredentialsMessage)
    ensures r.status != 400 && !(exists u :: u in users && u.username == req.username) ==> r.status == 401
    ensures r.status == 200 ==> exists u ::
      && u in users && u.username == req.username && verifyPassword(req.password, u.password)
      && r.body == LoggedIn(LoggedInMessage, PublicView(u), createToken(TokenClaims(u.id, u.username)))
  {
    if req.username == "" || req.password == "" then Response(400, Error(MissingFieldsMessage))
    else
      match FindUserByUsername(users, req.username)
      case None => Response(401, Error(InvalidCredentialsMessage))
      case Some(user) =>
        if !verifyPassword(req.password, user.password) then Response(401, Error(InvalidCredentialsMessage))
        else
          var token := createToken(TokenClaims(user.id, user.username));
          Response(200, LoggedIn(LoggedInMessage, PublicView(user), token))
  }

  /** With unique usernames, login succeeds exactly for a stored user whose password verifies. */
  lemma LoginSucceedsIffCredentialsValid(users: seq<User>, req: LoginRequest,
                                         verifyPassword: (string, string) -> bool, createToken: TokenClaims -> string)
    requires UniqueAccounts(users)
    ensures Post(users, req, verifyPassword, createToken).status == 200 <==>
      && req.username != "" && req.password != ""
      && exists u :: u in users && u.username == req.username && verifyPassword(req.password, u.password)
  {
    if req.username != "" && req.password != "" {
      if u :| u in users && u.username == req.username && verifyPassword(req.password, u.password) {
        FindByUsernameIsUnique(users, u);
      }
    }
  }

  /** An unknown username and a wrong password for a known one get the very same response. */
  lemma FailuresAreIndistinguishable(users: seq<User>, unknown: LoginRequest, wrong: LoginRequest, victim: User,
                                     verifyPassword: (string, string) -> bool, createToken: TokenClaims -> string)
    requires UniqueAccounts(users)
    requires unknown.username != "" && unknown.password != ""
    requires forall u :: u in users ==> u.username != unknown.username
    requires victim in users && wrong.username == victim.username && wrong.username != "" && wrong.password != ""
    requires !verifyPassword(wrong.password, victim.password)
    ensures Post(users, unknown, verifyPassword, createToken) == Post(users, wrong, verifyPassword, createToken)
    ensures Post(users, unknown, verifyPassword, createToken) == Response(401, Error(InvalidCredentialsMessage))
  {
    FindByUsernameIsUnique(users, victim);
  }

  /** The signed claims are exactly the matched user's id and username. */
  lemma TokenCarriesUserIdentity(users: seq<User>, req: LoginRequest, user: User,
                                 verifyPassword: (string, string) -> bool, createToken: TokenClaims -> string)
    requires UniqueAccounts(users)
    requires user in users && req.username == user.username
    requires Post(users, req, verifyPassword, createToken).status == 200
    ensures Post(users, req, verifyPassword, createToken).body.token == createToken(TokenClaims(user.id, user.username))
    ensures Post(users, req, verifyPassword, createToken).body.user == PublicView(user)
  {
    FindByUsernameIsUnique(users, user);
  }
}

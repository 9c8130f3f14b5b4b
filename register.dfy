/**
 * `POST /api/auth/register`: presence, then password length, then uniqueness of the
 * username and email, then one insert. The password is stored through the hashing
 * function, which is a parameter (bcrypt with cost 12 in the source).
 */
module RegisterRoute {
  import opened Wrappers
  import opened Schema
  import opened Database

  /** The JSON body; a missing field is the empty string (both are falsy). */
  datatype RegisterRequest = RegisterRequest(username: string, email: string, password: string, name: string)

  /** The `select` of the insert: id, username, email, name, createdAt; no password. */
  datatype CreatedUser = CreatedUser(id: int, username: string, email: string, name: Option<string>, createdAt: int)

  datatype Body = Error(error: string) | Registered(message: string, user: CreatedUser)

  datatype Response = Response(status: int, body: Body)

  const MinPasswordLength: nat := 6
  const MissingFieldsMessage: string := "Необходимо указать username, email и password"
  const ShortPasswordMessage: string := "Пароль должен содержать минимум 6 символов"
  const TakenMessage: string := "Пользователь с таким username или email уже существует"
  const RegisteredMessage: string := "Пользователь успешно зарегистрирован"

  /** JavaScript's `length`: UTF-16 code units, two for a character outside the Basic Multilingual Plane. */
  function Utf16Length(s: string): (n: nat)
    ensures |s| <= n <= 2 * |s|
  {
    if s == [] then 0 else (if s[0] as int > 0xFFFF then 2 else 1) + Utf16Length(s[1..])
  }

  /** Some stored user already has this username or this email. */
  ghost predicate Taken(users: seq<User>, username: string, email: string)
  {
    exists u :: u in users && (u.username == username || u.email == email)
  }

  /** `findFirst` with `OR: [{ username }, { email }]`: the first row matching either column. */
  function FindFirstTaken(users: seq<User>, username: string, email: string): (r: Option<User>)
    ensures r.Some? <==> Taken(users, username, email)
    ensures r.Some? ==> r.value in users && (r.value.username == username || r.value.email == email)
  {
    if users == [] then None
    else if users[0].username == username || users[0].email == email then Some(users[0])
    else
      assert forall u :: u in users[1..] ==> u in users;
      assert forall u :: u in users && u != users[0] ==> u in users[1..];
      FindFirstTaken(users[1..], username, email)
  }

  predicate MissingField(req: RegisterRequest)
  {
    req.username == "" || req.email == "" || req.password == ""
  }

  /** The status the handler answers with, the checks taken in the handler's order. */
  function Status(users: seq<User>, req: RegisterRequest): (s: int)
    ensures s == 400 <==> MissingField(req) || Utf16Length(req.password) < MinPasswordLength
    ensures s == 409 <==> !MissingField(req) && Utf16Length(req.password) >= MinPasswordLength && Taken(users, req.username, req.email)
    ensures s == 201 <==> !MissingField(req) && Utf16Length(req.password) >= MinPasswordLength && !Taken(users, req.username, req.email)
  {
    if MissingField(req) then 400
    else if Utf16Length(req.password) < MinPasswordLength then 400
    else if FindFirstTaken(users, req.username, req.email).Some? then 409
    else 201
  }

  /** The error body of a rejection: one message per reason, so the client can tell the three apart. */
  function ErrorMessage(users: seq<User>, req: RegisterRequest): (m: string)
    requires Status(users, req) != 201
    ensures m == MissingFieldsMessage <==> MissingField(req)
    ensures m == ShortPasswordMessage <==> Status(users, req) == 400 && !MissingField(req)
    ensures m == TakenMessage <==> Status(users, req) == 409
  {
    if MissingField(req) then MissingFieldsMessage
    else if Utf16Length(req.password) < MinPasswordLength then ShortPasswordMessage
    else TakenMessage
  }

  /** The row a successful registration inserts: hashed password, `name || null`. */
  function NewUser(id: int, req: RegisterRequest, hashPassword: string -> string, now: int): (u: User)
    ensures u.id == id && u.username == req.username && u.email == req.email
    ensures u.password == hashPassword(req.password)
    ensures u.name == (if req.name == "" then None else Some(req.name))
  {
    User(id, req.username, req.email, hashPassword(req.password), if req.name == "" then None else Some(req.name), now)
  }

  function Created(u: User): (c: CreatedUser)
    ensures c.id == u.id && c.username == u.username && c.email == u.email && c.name == u.name && c.createdAt == u.createdAt
  {
    CreatedUser(u.id, u.username, u.email, u.name, u.createdAt)
  }

  /** The `POST` handler. */
  method Post(db: Db, req: RegisterRequest, hashPassword: string -> string, now: int) returns (resp: Response)
    requires db.Valid()
    modifies db
    ensures db.Valid()
    ensures resp.status == Status(old(db.users), req)
    ensures resp.status != 201 ==>
      && resp.body == Error(ErrorMessage(old(db.users), req))
      && db.users == old(db.users) && db.posts == old(db.posts)
      && db.nextUserId == old(db.nextUserId) && db.nextPostId == old(db.nextPostId)
    ensures resp.status == 201 ==>
      var u := NewUser(old(db.nextUserId), req, hashPassword, now);
      && db.users == old(db.users) + [u] && db.posts == old(db.posts)
      && db.nextUserId == old(db.nextUserId) + 1 && db.nextPostId == old(db.nextPostId)
      && resp.body == Registered(RegisteredMessage, Created(u))
  {
    if req.username == "" || req.email == "" || req.password == "" {
      return Response(400, Error(MissingFieldsMessage));
    }
    if Utf16Length(req.password) < MinPasswordLength {
      return Response(400, Error(ShortPasswordMessage));
    }
    var existing := FindFirstTaken(db.users, req.username, req.email);
    if existing.Some? {
      return Response(409, Error(TakenMessage));
    }
    var hashed := hashPassword(req.password);
    var name := if req.name == "" then None else Some(req.name);
    var user := db.CreateUser(req.username, req.email, hashed, name, now);
    resp := Response(201, Registered(RegisteredMessage, Created(user)));
  }

  /** Presence is checked before length and length before uniqueness: a short password for a taken name is a 400. */
  lemma ValidationPrecedesUniqueness(users: seq<User>, req: RegisterRequest)
    requires Taken(users, req.username, req.email)
    requires Utf16Length(req.password) < MinPasswordLength
    ensures Status(users, req) == 400 && ErrorMessage(users, req) != TakenMessage
  {
  }

  /** Exactly six UTF-16 code units pass the length check; five do not. */
  lemma SixCharactersSuffice(users: seq<User>, req: RegisterRequest)
    requires !MissingField(req) && !Taken(users, req.username, req.email)
    ensures |req.password| == 6 && (forall i :: 0 <= i < 6 ==> req.password[i] as int <= 0xFFFF) ==> Status(users, req) == 201
    ensures |req.password| == 5 && (forall i :: 0 <= i < 5 ==> req.password[i] as int <= 0xFFFF) ==> Status(users, req) == 400
  {
    if forall i :: 0 <= i < |req.password| ==> req.password[i] as int <= 0xFFFF {
      BmpLength(req.password);
    }
  }

  lemma {:induction false} BmpLength(s: string)
    requires forall i :: 0 <= i < |s| ==> s[i] as int <= 0xFFFF
    ensures Utf16Length(s) == |s|
  {
    if s != [] {
      BmpLength(s[1..]);
    }
  }

  /** A successful registration keeps usernames and emails pairwise distinct. */
  lemma RegistrationKeepsAccountsUnique(users: seq<User>, req: RegisterRequest, id: int, hashPassword: string -> string, now: int)
    requires UniqueAccounts(users)
    requires forall i :: 0 <= i < |users| ==> users[i].id != id
    requires Status(users, req) == 201
    ensures UniqueAccounts(users + [NewUser(id, req, hashPassword, now)])
  {
    var users' := users + [NewUser(id, req, hashPassword, now)];
    forall i, j | 0 <= i < j < |users'|
      ensures users'[i].username != users'[j].username && users'[i].email != users'[j].email
    {
      if j == |users| {
        assert users'[i] in users;
      }
    }
  }
}

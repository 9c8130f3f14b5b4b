/**
 * The two tables the core handlers touch, the projections the handlers return, and the
 * lookups and constraints of the relational schema (unique usernames and emails,
 * posts referencing their author).
 */
module Schema {
  import opened Wrappers

  /** A `User` row; `password` holds the bcrypt hash, never the plaintext. */
  datatype User = User(id: int, username: string, email: string, password: string, name: Option<string>, createdAt: int)

  /** A `Post` row, as far as the core handlers read and write it. */
  datatype Post = Post(id: int, title: string, content: string, authorId: int, createdAt: int)

  /** The user fields login and `me` return: id, username, email, name; no password. */
  datatype PublicUser = PublicUser(id: int, username: string, email: string, name: Option<string>)

  /** The author fields embedded in a post response: id, name, email. */
  datatype AuthorSummary = AuthorSummary(id: int, name: Option<string>, email: string)

  function PublicView(u: User): (p: PublicUser)
    ensures p.id == u.id && p.username == u.username && p.email == u.email && p.name == u.name
  {
    PublicUser(u.id, u.username, u.email, u.name)
  }

  function Summary(u: User): (a: AuthorSummary)
    ensures a.id == u.id && a.name == u.name && a.email == u.email
  {
    AuthorSummary(u.id, u.name, u.email)
  }

  /** Some stored user has this id. */
  predicate HasUser(users: seq<User>, id: int)
  {
    exists i :: 0 <= i < |users| && users[i].id == id
  }

  /** `findUnique({ where: { id } })`: the first row with that id. */
  function FindUserById(users: seq<User>, id: int): (r: Option<User>)
    ensures r.Some? <==> HasUser(users, id)
    ensures r.Some? ==> r.value in users && r.value.id == id
  {
    if users == [] then None
    else if users[0].id == id then Some(users[0])
    else FindUserById(users[1..], id)
  }

  /** `findUnique({ where: { username } })`: the first row with that username. */
  function FindUserByUsername(users: seq<User>, username: string): (r: Option<User>)
    ensures r.Some? <==> exists i :: 0 <= i < |users| && users[i].username == username
    ensures r.Some? ==> r.value in users && r.value.username == username
  {
    if users == [] then None
    else if users[0].username == username then Some(users[0])
    else FindUserByUsername(users[1..], username)
  }

  /** The unique columns of the user table: id, username and email. */
  predicate UniqueAccounts(users: seq<User>)
  {
    forall i, j :: 0 <= i < j < |users| ==>
      users[i].id != users[j].id && users[i].username != users[j].username && users[i].email != users[j].email
  }

  /** The foreign key of the post table: every post's author is a stored user. */
  predicate AuthorsExist(users: seq<User>, posts: seq<Post>)
  {
    forall i :: 0 <= i < |posts| ==> HasUser(users, posts[i].authorId)
  }

  /** The primary key of the post table. */
  predicate UniquePostIds(posts: seq<Post>)
  {
    forall i, j :: 0 <= i < j < |posts| ==> posts[i].id != posts[j].id
  }

  /** With unique ids, a lookup by id finds the one row carrying it. */
  lemma {:induction false} FindByIdIsUnique(users: seq<User>, u: User)
    requires UniqueAccounts(users)
    requires u in users
    ensures FindUserById(users, u.id) == Some(u)
  {
    if users[0] != u {
      assert users[0].id != u.id by {
        var k :| 0 <= k < |users| && users[k] == u;
        assert k > 0;
      }
      assert UniqueAccounts(users[1..]) by {
        forall i, j | 0 <= i < j < |users[1..]|
          ensures users[1..][i].id != users[1..][j].id
        {
          assert users[1..][i] == users[i + 1] && users[1..][j] == users[j + 1];
        }
      }
      FindByIdIsUnique(users[1..], u);
    }
  }

  /** With unique usernames, a lookup by username finds the one row carrying it. */
  lemma {:induction false} FindByUsernameIsUnique(users: seq<User>, u: User)
    requires UniqueAccounts(users)
    requires u in users
    ensures FindUserByUsername(users, u.username) == Some(u)
  {
    if users[0] != u {
      assert users[0].username != u.username by {
        var k :| 0 <= k < |users| && users[k] == u;
        assert k > 0;
      }
      assert UniqueAccounts(users[1..]) by {
        forall i, j | 0 <= i < j < |users[1..]|
          ensures users[1..][i].username != users[1..][j].username
        {
          assert users[1..][i] == users[i + 1] && users[1..][j] == users[j + 1];
        }
      }
      FindByUsernameIsUnique(users[1..], u);
    }
  }
}

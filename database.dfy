/**
 * The database the handlers share, as an object whose two tables the insert
 * operations update in place. `Valid()` holds the schema's constraints; each insert
 * requires that the row it adds keeps them, which is what the database would
 * otherwise enforce by failing the query.
 */
module Database {
  import opened Wrappers
  import opened Schema

  class Db {
    var users: seq<User>
    var posts: seq<Post>
    /** The next values of the two autoincrement id sequences. */
    var nextUserId: int
    var nextPostId: int

    ghost predicate Valid()
      reads this
    {
      && UniqueAccounts(users)
      && UniquePostIds(posts)
      && AuthorsExist(users, posts)
      && nextUserId >= 1 && nextPostId >= 1
      && (forall i :: 0 <= i < |users| ==> 1 <= users[i].id < nextUserId)
      && (forall i :: 0 <= i < |posts| ==> 1 <= posts[i].id < nextPostId)
    }

    /** An empty database whose id sequences start at 1. */
    constructor ()
      ensures Valid()
      ensures users == [] && posts == [] && nextUserId == 1 && nextPostId == 1
    {
      users, posts := [], [];
      nextUserId, nextPostId := 1, 1;
    }

    /** `prisma.user.create`: appends a row with the next id; the username and email must be free. */
    method CreateUser(username: string, email: string, password: string, name: Option<string>, now: int)
      returns (u: User)
      requires Valid()
      requires forall i :: 0 <= i < |users| ==> users[i].username != username && users[i].email != email
      modifies this
      ensures Valid()
      ensures u == User(old(nextUserId), username, email, password, name, now)
      ensures users == old(users) + [u] && posts == old(posts)
      ensures nextUserId == old(nextUserId) + 1 && nextPostId == old(nextPostId)
    {
      u := User(nextUserId, username, email, password, name, now);
      users := users + [u];
      nextUserId := nextUserId + 1;
      assert forall i :: 0 <= i < |posts| ==> HasUser(users, posts[i].authorId) by {
        forall i | 0 <= i < |posts|
          ensures HasUser(users, posts[i].authorId)
        {
          var k :| 0 <= k < |old(users)| && old(users)[k].id == posts[i].authorId;
          assert users[k] == old(users)[k];
        }
      }
    }

    /** `prisma.post.create`: appends a row with the next id; the author must exist. */
    method CreatePost(title: string, content: string, authorId: int, now: int) returns (p: Post)
      requires Valid()
      requires HasUser(users, authorId)
      modifies this
      ensures Valid()
      ensures p == Post(old(nextPostId), title, content, authorId, now)
      ensures posts == old(posts) + [p] && users == old(users)
      ensures nextPostId == old(nextPostId) + 1 && nextUserId == old(nextUserId)
    {
      p := Post(nextPostId, title, content, authorId, now);
      posts := posts + [p];
      nextPostId := nextPostId + 1;
    }
  }
}

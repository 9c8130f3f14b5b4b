/**
 * `/api/posts`: `POST` checks the fields and the author's existence, then inserts one
 * post; `GET` returns every post with its author summary, newest first.
 */
module PostsRoute {
  import opened Wrappers
  import opened Schema
  import opened Database

  /** The JSON body; `authorId` is `None` when missing, and 0 is as falsy as missing. */
  datatype CreatePostRequest = CreatePostRequest(title: string, content: string, authorId: Option<int>)

  /** A post with `include: { author: { select: { id, name, email } } }`. */
  datatype PostWithAuthor = PostWithAuthor(post: Post, author: AuthorSummary)

  datatype Body = Error(error: string) | Created(message: string, post: PostWithAuthor)

  datatype Response = Response(status: int, body: Body)

  const MissingFieldsMessage: string := "Необходимо указать title, content и authorId"
  const AuthorNotFoundMessage: string := "Пользователь не найден"
  const CreatedMessage: string := "Пост успешно создан"

  predicate MissingField(req: CreatePostRequest)
  {
    req.title == "" || req.content == "" || req.authorId.None? || req.authorId.value == 0
  }

  /** The status `POST` answers with: 400 for a falsy field, 404 for an unknown author, else 201. */
  function CreateStatus(users: seq<User>, req: CreatePostRequest): (s: int)
    ensures s == 400 <==> MissingField(req)
    ensures s == 404 <==> !MissingField(req) && !HasUser(users, req.authorId.value)
    ensures s == 201 <==> !MissingField(req) && HasUser(users, req.authorId.value)
  {
    if MissingField(req) then 400
    else if FindUserById(users, req.authorId.value).None? then 404
    else 201
  }

  /** The row a successful `POST` inserts. */
  function NewPost(id: int, req: CreatePostRequest, now: int): (p: Post)
    requires req.authorId.Some?
    ensures p.id == id && p.title == req.title && p.content == req.content && p.authorId == req.authorId.value
  {
    Post(id, req.title, req.content, req.authorId.value, now)
  }

  /** The `POST` handler. */
  method Create(db: Db, req: CreatePostRequest, now: int) returns (resp: Response)
    requires db.Valid()
    modifies db
    ensures db.Valid()
    ensures resp.status == CreateStatus(old(db.users), req)
    ensures resp.status == 400 ==> resp.body == Error(MissingFieldsMessage)
    ensures resp.status == 404 ==> resp.body == Error(AuthorNotFoundMessage)
    ensures resp.status != 201 ==>
      && db.users == old(db.users) && db.posts == old(db.posts)
      && db.nextUserId == old(db.nextUserId) && db.nextPostId == old(db.nextPostId)
    ensures resp.status == 201 ==>
      var p := NewPost(old(db.nextPostId), req, now);
      var author := FindUserById(old(db.users), req.authorId.value).value;
      && db.posts == old(db.posts) + [p] && db.users == old(db.users)
      && db.nextPostId == old(db.nextPostId) + 1 && db.nextUserId == old(db.nextUserId)
      && resp.body == Created(CreatedMessage, PostWithAuthor(p, Summary(author)))
  {
    if req.title == "" || req.content == "" || req.authorId.None? || req.authorId.value == 0 {
      return Response(400, Error(MissingFieldsMessage));
    }
    var user := FindUserById(db.users, req.authorId.value);
    if user.None? {
      return Response(404, Error(AuthorNotFoundMessage));
    }
    var post := db.CreatePost(req.title, req.content, req.authorId.value, now);
    resp := Response(201, Created(CreatedMessage, PostWithAuthor(post, Summary(user.value))));
  }

  /** Creating a post keeps every post's author a stored user. */
  lemma CreationKeepsAuthorsValid(users: seq<User>, posts: seq<Post>, req: CreatePostRequest, id: int, now: int)
    requires AuthorsExist(users, posts)
    requires CreateStatus(users, req) == 201
    ensures AuthorsExist(users, posts + [NewPost(id, req, now)])
  {
  }

  // ---------------------------------------------------------------------------
  // GET: orderBy createdAt desc

  /** Newest first: `createdAt` never increases along the sequence. */
  predicate NewestFirst(posts: seq<Post>)
  {
    forall i, j :: 0 <= i < j < |posts| ==> posts[i].createdAt >= posts[j].createdAt
  }

  /** `p` placed into a newest-first sequence. */
  function Insert(p: Post, sorted: seq<Post>): (r: seq<Post>)
    requires NewestFirst(sorted)
    ensures multiset(r) == multiset(sorted) + multiset{p}
    ensures NewestFirst(r)
  {
    if sorted == [] || p.createdAt >= sorted[0].createdAt then [p] + sorted
    else
      var rest := Insert(p, sorted[1..]);
      assert sorted == [sorted[0]] + sorted[1..];
      InsertBoundedByHead(p, sorted, rest);
      [sorted[0]] + rest
  }

  /** `p` inserted into the tail of `sorted`, when older than its head, stays no newer than that head. */
  lemma InsertBoundedByHead(p: Post, sorted: seq<Post>, rest: seq<Post>)
    requires NewestFirst(sorted) && sorted != [] && p.createdAt < sorted[0].createdAt
    requires multiset(rest) == multiset(sorted[1..]) + multiset{p}
    ensures forall k :: 0 <= k < |rest| ==> rest[k].createdAt <= sorted[0].createdAt
  {
    forall k | 0 <= k < |rest|
      ensures rest[k].createdAt <= sorted[0].createdAt
    {
      assert rest[k] in multiset(rest);
      if rest[k] != p {
        assert rest[k] in multiset(sorted[1..]);
      }
    }
  }

  /** The posts ordered newest first: a permutation of the input. */
  function SortNewestFirst(posts: seq<Post>): (r: seq<Post>)
    ensures multiset(r) == multiset(posts)
    ensures NewestFirst(r)
  {
    if posts == [] then []
    else
      assert posts == [posts[0]] + posts[1..];
      Insert(posts[0], SortNewestFirst(posts[1..]))
  }

  /** The post joined with its author's summary. */
  function WithAuthor(users: seq<User>, p: Post): (r: PostWithAuthor)
    requires HasUser(users, p.authorId)
    ensures r.post == p
    ensures exists u :: u in users && u.id == p.authorId && r.author == Summary(u)
  {
    PostWithAuthor(p, Summary(FindUserById(users, p.authorId).value))
  }

  /** Reordering the posts keeps every author a stored user. */
  lemma PermutationKeepsAuthors(users: seq<User>, posts: seq<Post>, reordered: seq<Post>)
    requires AuthorsExist(users, posts)
    requires multiset(reordered) == multiset(posts)
    ensures AuthorsExist(users, reordered)
    ensures |reordered| == |posts|
  {
    assert |reordered| == |multiset(reordered)|;
    forall i | 0 <= i < |reordered|
      ensures HasUser(users, reordered[i].authorId)
    {
      assert reordered[i] in multiset(posts);
      var j :| 0 <= j < |posts| && posts[j] == reordered[i];
    }
  }

  /** The `GET` handler: every stored post, newest first, each with its author. */
  function List(users: seq<User>, posts: seq<Post>): (r: seq<PostWithAuthor>)
    requires AuthorsExist(users, posts)
    ensures |r| == |posts|
    ensures multiset(seq(|r|, i requires 0 <= i < |r| => r[i].post)) == multiset(posts)
    ensures forall i, j :: 0 <= i < j < |r| ==> r[i].post.createdAt >= r[j].post.createdAt
    ensures forall i :: 0 <= i < |r| ==> exists u :: u in users && u.id == r[i].post.authorId && r[i].author == Summary(u)
  {
    var sorted := SortNewestFirst(posts);
    PermutationKeepsAuthors(users, posts, sorted);
    var r := seq(|sorted|, i requires 0 <= i < |sorted| => WithAuthor(users, sorted[i]));
    assert seq(|r|, i requires 0 <= i < |r| => r[i].post) == sorted;
    r
  }
}

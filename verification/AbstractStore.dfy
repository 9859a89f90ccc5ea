/**
 * What the tables are for: users, posts that carry their own tags, fans and comments, and who follows whom.  There
 * are no tag ids and no join rows here, and each operation is a direct statement of what it means.
 */
module AbstractStore {
  import opened Prelude
  import opened Schema
  import opened Mutators

  datatype Remark = Remark(author: int, body: string, createdAt: int, updatedAt: int)

  datatype Post = Post(row: Article, tags: set<string>, fans: set<int>, remarks: map<int, Remark>)

  datatype Store = Store(users: map<int, User>, posts: map<int, Post>, follows: set<(int, int)>, serials: Serials)

  datatype Answer = Answer(store: Store, reply: Reply)

  // ---- the abstraction function ----

  function TagNames(t: Tables, article: int): set<string> {
    set p | p in t.articleTags && p.0 == article && p.1 in t.tags :: t.tags[p.1]
  }

  function Fans(t: Tables, article: int): set<int> {
    set p | p in t.favorites && p.1 == article :: p.0
  }

  function RemarkOf(c: Comment): Remark {
    Remark(c.author, c.body, c.createdAt, c.updatedAt)
  }

  function Remarks(t: Tables, article: int): map<int, Remark> {
    map c | c in t.comments && t.comments[c].article == article :: RemarkOf(t.comments[c])
  }

  function PostOf(t: Tables, article: int): Post
    requires article in t.articles
  {
    Post(t.articles[article], TagNames(t, article), Fans(t, article), Remarks(t, article))
  }

  function Abstract(db: Db): Store {
    Store(db.tables.users, map a | a in db.tables.articles :: PostOf(db.tables, a), db.tables.followers, db.serials)
  }

  // ---- the operations ----

  ghost function PostAt(s: Store, slug: string): (r: Option<int>)
    ensures r.Some? ==> r.value in s.posts && s.posts[r.value].row.slug == slug
    ensures r.None? ==> forall a | a in s.posts :: s.posts[a].row.slug != slug
  {
    if exists a :: a in s.posts && s.posts[a].row.slug == slug then
      var a :| a in s.posts && s.posts[a].row.slug == slug;
      Some(a)
    else None
  }

  predicate SlugInUse(s: Store, slug: string, self: int) {
    exists a | a in s.posts :: a != self && s.posts[a].row.slug == slug
  }

  function Fail(s: Store, e: DbError): Answer {
    Answer(s, Error(e))
  }

  function Register(s: Store, username: string, email: string, hash: string): Answer {
    var s' := s.(serials := s.serials.(users := s.serials.users + 1));
    if s.serials.users >= MAX_INT32 then Fail(s, SequenceExhausted)
    else if TooLong(email) || TooLong(hash) then Fail(s', StringTooLong)
    else if UsernameTaken(s.users, username, 0) then Fail(s', UniqueViolation(UniqUsername))
    else if EmailTaken(s.users, email, 0) then Fail(s', UniqueViolation(UniqEmail))
    else Answer(s'.(users := s.users[s'.serials.users := User(username, email, hash, None, None)]),
                Ids([s'.serials.users]))
  }

  function Edit(s: Store, user: int, p: UserPatch): Answer {
    if user !in s.users then Answer(s, UserRows([]))
    else
      var row := PatchUser(s.users[user], p);
      if UserTooLong(row) then Fail(s, StringTooLong)
      else if UsernameTaken(s.users, row.username, user) then Fail(s, UniqueViolation(UniqUsername))
      else if EmailTaken(s.users, row.email, user) then Fail(s, UniqueViolation(UniqEmail))
      else Answer(s.(users := s.users[user := row]), UserRows([(user, row)]))
  }

  /** How many of the names are stored before the first one that does not fit its column. */
  function FirstTooLong(names: seq<string>): (k: nat)
    ensures k <= |names|
    ensures forall i | 0 <= i < k :: !TooLong(names[i])
    ensures k < |names| ==> TooLong(names[k])
  {
    if names == [] || TooLong(names[0]) then 0 else 1 + FirstTooLong(names[1..])
  }

  /** Every listed name draws one tag id, up to and including the first name that does not fit. */
  function TagIdsDrawn(names: seq<string>): nat {
    var k := FirstTooLong(names);
    if k < |names| then k + 1 else |names|
  }

  /** A post keeps the set of its tag names: order and repetition in the request do not matter. */
  function Publish(s: Store, m: Mutation, now: int): Answer
    requires m.AddNewArticle?
  {
    var id := s.serials.articles + 1;
    var s' := s.(serials := s.serials.(articles := id));
    if s.serials.articles >= MAX_INT32 then Fail(s, SequenceExhausted)
    else if TooLong(m.title) || TooLong(m.slug) then Fail(s', StringTooLong)
    else if SlugInUse(s, m.slug, 0) then Fail(s', UniqueViolation(UniqSlug))
    else if m.author !in s.users then Fail(s', ForeignKeyViolation)
    else
      var names := m.tagList.GetOr([]);
      var drawn := s.serials.tags + TagIdsDrawn(names);
      var s'' := s'.(serials := s'.serials.(tags := Min(drawn, MAX_INT32)));
      if drawn > MAX_INT32 then Fail(s'', SequenceExhausted)
      else if FirstTooLong(names) < |names| then Fail(s'', StringTooLong)
      else
        var row := Article(m.title, m.slug, m.description, m.body, m.author, now, now);
        Answer(s''.(posts := s.posts[id := Post(row, set n | n in names, {}, map[])]), Ids([id]))
  }

  ghost function Revise(s: Store, slug: string, author: int, p: ArticlePatch, now: int): Answer {
    match PostAt(s, slug)
    case None => Answer(s, Ids([]))
    case Some(a) =>
      var row := PatchArticle(s.posts[a].row, p, now);
      if s.posts[a].row.author != author then Answer(s, Ids([]))
      else if TooLong(row.title) || TooLong(row.slug) then Fail(s, StringTooLong)
      else if SlugInUse(s, row.slug, a) then Fail(s, UniqueViolation(UniqSlug))
      else Answer(s.(posts := s.posts[a := s.posts[a].(row := row)]), Ids([a]))
  }

  /** Withdrawing a post takes its tags and remarks with it, and is refused while it has a fan. */
  ghost function Withdraw(s: Store, slug: string, author: int): Answer {
    match PostAt(s, slug)
    case None => Answer(s, Void)
    case Some(a) =>
      if s.posts[a].row.author != author then Answer(s, Void)
      else if s.posts[a].fans != {} then Fail(s, ForeignKeyViolation)
      else Answer(s.(posts := s.posts - {a}), Void)
  }

  ghost function AddRemark(s: Store, slug: string, body: string, user: int, now: int): Answer {
    var id := s.serials.comments + 1;
    var s' := s.(serials := s.serials.(comments := id));
    var at := PostAt(s, slug);
    if s.serials.comments >= MAX_INT32 then Fail(s, SequenceExhausted)
    else if |body| > MAX_COMMENT then Fail(s', StringTooLong)
    else if at.None? then Fail(s', NotNullViolation)
    else if user !in s.users then Fail(s', ForeignKeyViolation)
    else
      var post := s.posts[at.value];
      Answer(s'.(posts := s.posts[at.value := post.(remarks := post.remarks[id := Remark(user, body, now, now)])]),
             Ids([id]))
  }

  ghost function DropRemark(s: Store, id: int, slug: string, author: int): Answer {
    match PostAt(s, slug)
    case None => Answer(s, Void)
    case Some(a) =>
      var post := s.posts[a];
      if id in post.remarks && post.remarks[id].author == author then
        Answer(s.(posts := s.posts[a := post.(remarks := post.remarks - {id})]), Void)
      else Answer(s, Void)
  }

  ghost function AddFan(s: Store, slug: string, user: int): Answer {
    match PostAt(s, slug)
    case None => Fail(s, NotNullViolation)
    case Some(a) =>
      var post := s.posts[a];
      if user in post.fans then Fail(s, UniqueViolation(PkFavorites))
      else if user !in s.users then Fail(s, ForeignKeyViolation)
      else Answer(s.(posts := s.posts[a := post.(fans := post.fans + {user})]), Void)
  }

  ghost function DropFan(s: Store, slug: string, user: int): Answer {
    match PostAt(s, slug)
    case None => Answer(s, Void)
    case Some(a) => Answer(s.(posts := s.posts[a := s.posts[a].(fans := s.posts[a].fans - {user})]), Void)
  }

  function StartFollowing(s: Store, follower: int, followed: int): Answer {
    if (follower, followed) in s.follows then Fail(s, UniqueViolation(PkFollowers))
    else if follower !in s.users || followed !in s.users then Fail(s, ForeignKeyViolation)
    else Answer(s.(follows := s.follows + {(follower, followed)}), Void)
  }

  function StopFollowing(s: Store, follower: int, followed: int): Answer {
    Answer(s.(follows := s.follows - {(follower, followed)}), Void)
  }

  ghost function Perform(m: Mutation, now: int, s: Store): Answer {
    match m
    case AddNewUser(username, email, hash) => Register(s, username, email, hash)
    case UpdateUserById(user, p) => Edit(s, user, p)
    case AddNewArticle(_, _, _, _, _, _) => Publish(s, m, now)
    case UpdateArticleBySlug(oldSlug, author, p) => Revise(s, oldSlug, author, p, now)
    case DeleteArticleBySlug(slug, author) => Withdraw(s, slug, author)
    case AddCommentToArticle(slug, body, user) => AddRemark(s, slug, body, user, now)
    case DeleteComment(comment, slug, author) => DropRemark(s, comment, slug, author)
    case FavoriteArticle(slug, user) => AddFan(s, slug, user)
    case UnfavoriteArticle(slug, user) => DropFan(s, slug, user)
    case Follow(follower, followed) => StartFollowing(s, follower, followed)
    case Unfollow(follower, followed) => StopFollowing(s, follower, followed)
  }

  ghost function PerformAll(s: Store, calls: seq<Call>): Store
    decreases |calls|
  {
    if calls == [] then s else PerformAll(Perform(calls[0].mutation, calls[0].now, s).store, calls[1..])
  }

  ghost function Answers(s: Store, calls: seq<Call>): seq<Reply>
    decreases |calls|
  {
    if calls == [] then []
    else
      var a := Perform(calls[0].mutation, calls[0].now, s);
      [a.reply] + Answers(a.store, calls[1..])
  }
}

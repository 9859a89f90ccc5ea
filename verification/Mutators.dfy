/**
 * What each of the eleven mutating SQL functions does to the database, as a function of the database before the
 * call.  A call that fails puts the tables back but keeps the sequence values it has drawn.
 */
module Mutators {
  import opened Prelude
  import opened Schema

  datatype UserPatch = UserPatch(
    username: Option<string>, email: Option<string>, hash: Option<string>, bio: Option<string>, image: Option<string>)

  datatype ArticlePatch = ArticlePatch(
    title: Option<string>, slug: Option<string>, description: Option<string>, body: Option<string>)

  datatype Mutation =
    | AddNewUser(username: string, email: string, hash: string)
    | UpdateUserById(user: int, userPatch: UserPatch)
    | AddNewArticle(title: string, slug: string, description: string, body: string, author: int,
                    tagList: Option<seq<string>>)
    | UpdateArticleBySlug(oldSlug: string, author: int, articlePatch: ArticlePatch)
    | DeleteArticleBySlug(slug: string, author: int)
    | AddCommentToArticle(slug: string, body: string, user: int)
    | DeleteComment(comment: int, slug: string, author: int)
    | FavoriteArticle(slug: string, user: int)
    | UnfavoriteArticle(slug: string, user: int)
    | Follow(follower: int, followed: int)
    | Unfollow(follower: int, followed: int)

  /** What the caller gets back: an error, nothing, or the returned rows. */
  datatype Reply = Error(error: DbError) | Void | Ids(ids: seq<int>) | UserRows(rows: seq<(int, User)>)

  datatype Result = Result(db: Db, reply: Reply)

  // ---- lookups ----

  /** The scalar subquery that finds an article by its slug; None is its NULL. */
  ghost function ArticleAt(t: Tables, slug: string): (r: Option<int>)
    ensures r.Some? ==> r.value in t.articles && t.articles[r.value].slug == slug
    ensures r.None? ==> forall a | a in t.articles :: t.articles[a].slug != slug
  {
    if exists a :: a in t.articles && t.articles[a].slug == slug then
      var a :| a in t.articles && t.articles[a].slug == slug;
      Some(a)
    else None
  }

  /** Some row other than `self` already has this user name, up to case. */
  predicate UsernameTaken(users: map<int, User>, name: string, self: int) {
    exists u | u in users :: u != self && SameName(users[u].username, name)
  }

  predicate EmailTaken(users: map<int, User>, email: string, self: int) {
    exists u | u in users :: u != self && users[u].email == email
  }

  predicate SlugTaken(t: Tables, slug: string, self: int) {
    exists a | a in t.articles :: a != self && t.articles[a].slug == slug
  }

  predicate TooLong(s: string) {
    |s| > MAX_VARCHAR
  }

  // ---- users ----

  /** No row has id 0, so 0 excepts nobody in a uniqueness test. */
  function AddUser(db: Db, username: string, email: string, hash: string): Result {
    var t, s := db.tables, db.serials;
    if s.users >= MAX_INT32 then Result(db, Error(SequenceExhausted))
    else
      var id := s.users + 1;
      var drawn := db.(serials := s.(users := id));
      if TooLong(email) || TooLong(hash) then Result(drawn, Error(StringTooLong))
      else if id in t.users then Result(drawn, Error(UniqueViolation(PkUsers)))
      else if UsernameTaken(t.users, username, 0) then Result(drawn, Error(UniqueViolation(UniqUsername)))
      else if EmailTaken(t.users, email, 0) then Result(drawn, Error(UniqueViolation(UniqEmail)))
      else Result(drawn.(tables := t.(users := t.users[id := User(username, email, hash, None, None)])), Ids([id]))
  }

  function PatchUser(row: User, p: UserPatch): User {
    User(p.username.GetOr(row.username), p.email.GetOr(row.email), p.hash.GetOr(row.hash),
         p.bio.OrElse(row.bio), p.image.OrElse(row.image))
  }

  predicate UserTooLong(row: User) {
    TooLong(row.email) || TooLong(row.hash) || (row.image.Some? && TooLong(row.image.value))
  }

  function UpdateUser(db: Db, user: int, p: UserPatch): Result {
    var t := db.tables;
    if user !in t.users then Result(db, UserRows([]))
    else
      var row := PatchUser(t.users[user], p);
      if UserTooLong(row) then Result(db, Error(StringTooLong))
      else if UsernameTaken(t.users, row.username, user) then Result(db, Error(UniqueViolation(UniqUsername)))
      else if EmailTaken(t.users, row.email, user) then Result(db, Error(UniqueViolation(UniqEmail)))
      else Result(db.(tables := t.(users := t.users[user := row])), UserRows([(user, row)]))
  }

  // ---- articles ----

  datatype TagInsert = TagInsert(tags: map<int, string>, serial: int, error: Option<DbError>)

  predicate NameTaken(tags: map<int, string>, name: string) {
    exists g | g in tags :: tags[g] == name
  }

  /** INSERT INTO tags ... ON CONFLICT DO NOTHING, row by row: a skipped row has still drawn its sequence value. */
  function InsertTags(tags: map<int, string>, serial: int, names: seq<string>): TagInsert
    decreases |names|
  {
    if names == [] then TagInsert(tags, serial, None)
    else if serial >= MAX_INT32 then TagInsert(tags, serial, Some(SequenceExhausted))
    else
      var id := serial + 1;
      if TooLong(names[0]) then TagInsert(tags, id, Some(StringTooLong))
      else if id in tags || NameTaken(tags, names[0]) then InsertTags(tags, id, names[1..])
      else InsertTags(tags[id := names[0]], id, names[1..])
  }

  function TagLinks(article: int, tags: map<int, string>, names: seq<string>): set<(int, int)> {
    set g | g in tags && tags[g] in names :: (article, g)
  }

  /** unnest(NULL) has no rows and `name = ANY (NULL)` is never true, so an absent list acts like an empty one. */
  function AddArticle(db: Db, m: Mutation, now: int): Result
    requires m.AddNewArticle?
  {
    var t, s := db.tables, db.serials;
    if s.articles >= MAX_INT32 then Result(db, Error(SequenceExhausted))
    else
      var id := s.articles + 1;
      var drawn := db.(serials := s.(articles := id));
      if TooLong(m.title) || TooLong(m.slug) then Result(drawn, Error(StringTooLong))
      else if id in t.articles then Result(drawn, Error(UniqueViolation(PkArticles)))
      else if SlugTaken(t, m.slug, 0) then Result(drawn, Error(UniqueViolation(UniqSlug)))
      else if m.author !in t.users then Result(drawn, Error(ForeignKeyViolation))
      else
        var names := m.tagList.GetOr([]);
        var ins := InsertTags(t.tags, s.tags, names);
        var drawnTags := drawn.(serials := s.(articles := id, tags := ins.serial));
        if ins.error.Some? then Result(drawnTags, Error(ins.error.value))
        else
          var links := TagLinks(id, ins.tags, names);
          if links * t.articleTags != {} then Result(drawnTags, Error(UniqueViolation(PkArticleTags)))
          else
            var row := Article(m.title, m.slug, m.description, m.body, m.author, now, now);
            Result(drawnTags.(tables := t.(articles := t.articles[id := row], tags := ins.tags,
                                           articleTags := t.articleTags + links)), Ids([id]))
  }

  function PatchArticle(row: Article, p: ArticlePatch, now: int): Article {
    row.(title := p.title.GetOr(row.title), slug := p.slug.GetOr(row.slug),
         description := p.description.GetOr(row.description), body := p.body.GetOr(row.body), updatedAt := now)
  }

  ghost function UpdateArticle(db: Db, oldSlug: string, author: int, p: ArticlePatch, now: int): Result {
    var t := db.tables;
    match ArticleAt(t, oldSlug)
    case None => Result(db, Ids([]))
    case Some(a) =>
      if t.articles[a].author != author then Result(db, Ids([]))
      else
        var row := PatchArticle(t.articles[a], p, now);
        if TooLong(row.title) || TooLong(row.slug) then Result(db, Error(StringTooLong))
        else if SlugTaken(t, row.slug, a) then Result(db, Error(UniqueViolation(UniqSlug)))
        else Result(db.(tables := t.(articles := t.articles[a := row])), Ids([a]))
  }

  function OwnedAt(t: Tables, slug: string, author: int): set<int> {
    set a | a in t.articles && t.articles[a].slug == slug && t.articles[a].author == author
  }

  function WithoutArticles(t: Tables, gone: set<int>): Tables {
    t.(articles := t.articles - gone,
       articleTags := (set p | p in t.articleTags && p.0 !in gone),
       comments := (map c | c in t.comments && t.comments[c].article !in gone :: t.comments[c]))
  }

  /** The foreign keys of article_tags and comments cascade, the one of favorites does not. */
  function DeleteArticle(db: Db, slug: string, author: int): Result {
    var gone := OwnedAt(db.tables, slug, author);
    if exists p | p in db.tables.favorites :: p.1 in gone then Result(db, Error(ForeignKeyViolation))
    else Result(db.(tables := WithoutArticles(db.tables, gone)), Void)
  }

  // ---- comments ----

  ghost function AddComment(db: Db, slug: string, body: string, user: int, now: int): Result {
    var t, s := db.tables, db.serials;
    if s.comments >= MAX_INT32 then Result(db, Error(SequenceExhausted))
    else
      var id := s.comments + 1;
      var drawn := db.(serials := s.(comments := id));
      var at := ArticleAt(t, slug);
      if |body| > MAX_COMMENT then Result(drawn, Error(StringTooLong))
      else if at.None? then Result(drawn, Error(NotNullViolation))
      else if id in t.comments then Result(drawn, Error(UniqueViolation(PkComments)))
      else if user !in t.users then Result(drawn, Error(ForeignKeyViolation))
      else Result(drawn.(tables := t.(comments := t.comments[id := Comment(user, at.value, body, now, now)])),
                  Ids([id]))
  }

  /** The WHERE clause shared by delete_comment and is_comment_exist; comparing with a NULL article is never true. */
  ghost predicate CommentMatches(t: Tables, comment: int, slug: string, author: int) {
    && comment in t.comments
    && t.comments[comment].author == author
    && ArticleAt(t, slug) == Some(t.comments[comment].article)
  }

  ghost function RemoveComment(db: Db, comment: int, slug: string, author: int): Result {
    if CommentMatches(db.tables, comment, slug, author) then
      Result(db.(tables := db.tables.(comments := db.tables.comments - {comment})), Void)
    else Result(db, Void)
  }

  // ---- favorites and followers ----

  ghost function Favorite(db: Db, slug: string, user: int): Result {
    var t := db.tables;
    match ArticleAt(t, slug)
    case None => Result(db, Error(NotNullViolation))
    case Some(a) =>
      if (user, a) in t.favorites then Result(db, Error(UniqueViolation(PkFavorites)))
      else if user !in t.users then Result(db, Error(ForeignKeyViolation))
      else Result(db.(tables := t.(favorites := t.favorites + {(user, a)})), Void)
  }

  ghost function Unfavorite(db: Db, slug: string, user: int): Result {
    var t := db.tables;
    match ArticleAt(t, slug)
    case None => Result(db, Void)
    case Some(a) => Result(db.(tables := t.(favorites := t.favorites - {(user, a)})), Void)
  }

  function AddFollower(db: Db, follower: int, followed: int): Result {
    var t := db.tables;
    if (follower, followed) in t.followers then Result(db, Error(UniqueViolation(PkFollowers)))
    else if follower !in t.users || followed !in t.users then Result(db, Error(ForeignKeyViolation))
    else Result(db.(tables := t.(followers := t.followers + {(follower, followed)})), Void)
  }

  function RemoveFollower(db: Db, follower: int, followed: int): Result {
    Result(db.(tables := db.tables.(followers := db.tables.followers - {(follower, followed)})), Void)
  }

  // ---- one statement, and a run of them ----

  ghost function Apply(m: Mutation, now: int, db: Db): Result {
    match m
    case AddNewUser(username, email, hash) => AddUser(db, username, email, hash)
    case UpdateUserById(user, p) => UpdateUser(db, user, p)
    case AddNewArticle(_, _, _, _, _, _) => AddArticle(db, m, now)
    case UpdateArticleBySlug(oldSlug, author, p) => UpdateArticle(db, oldSlug, author, p, now)
    case DeleteArticleBySlug(slug, author) => DeleteArticle(db, slug, author)
    case AddCommentToArticle(slug, body, user) => AddComment(db, slug, body, user, now)
    case DeleteComment(comment, slug, author) => RemoveComment(db, comment, slug, author)
    case FavoriteArticle(slug, user) => Favorite(db, slug, user)
    case UnfavoriteArticle(slug, user) => Unfavorite(db, slug, user)
    case Follow(follower, followed) => AddFollower(db, follower, followed)
    case Unfollow(follower, followed) => RemoveFollower(db, follower, followed)
  }

  /** A statement together with the clock reading it takes; readings need not grow from one statement to the next. */
  datatype Call = Call(mutation: Mutation, now: int)

  ghost function Run(db: Db, calls: seq<Call>): Db
    decreases |calls|
  {
    if calls == [] then db else Run(Apply(calls[0].mutation, calls[0].now, db).db, calls[1..])
  }

  ghost function Replies(db: Db, calls: seq<Call>): seq<Reply>
    decreases |calls|
  {
    if calls == [] then []
    else
      var r := Apply(calls[0].mutation, calls[0].now, db);
      [r.reply] + Replies(r.db, calls[1..])
  }
}

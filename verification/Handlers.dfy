/**
 * The request handlers as programs over single statements.  A handler has no transaction around its statements, so
 * between any two of them other requests may change the database.
 */
module Handlers {
  import opened Prelude
  import opened Text
  import opened Schema
  import opened Mutators
  import opened Queries

  /** A request whose body has passed validation; `user` is the id in the caller's token. */
  datatype Request =
    | RegisterUser(username: string, email: string, hash: string)
    | LogIn(email: string, password: string)
    | EditUser(user: int, userPatch: UserPatch)
    | CreateArticle(user: int, title: string, description: string, body: string, tagList: Option<seq<string>>)
    | EditArticle(user: int, slug: string, newTitle: Option<string>, newDescription: Option<string>,
                  newBody: Option<string>)
    | RemoveArticle(user: int, slug: string)
    | PostComment(user: int, slug: string, body: string)
    | RemoveComment(user: int, slug: string, comment: int)
    | AddFavorite(user: int, slug: string)
    | RemoveFavorite(user: int, slug: string)
    | FollowUser(user: int, username: string)
    | UnfollowUser(user: int, username: string)

  /** An account as its owner sees it, next to a token. */
  datatype Account = Account(email: string, username: string, bio: Option<string>, image: Option<string>)

  function AccountOf(row: User): Account {
    Account(row.email, row.username, row.bio, row.image)
  }

  datatype Response =
    | TokenFor(id: int, account: Account)
    | UserBody(account: Account)
    | ArticleBody(article: ArticleDto)
    | CommentBody(comment: CommentView)
    | ProfileBody(profile: Profile)
    | Empty
    | NotFound
    | Forbidden(field: string)
    | Taken(field: string)
    | Crashed(error: DbError)   // an exception of the driver that the handler does not catch
    | RowCountMismatch          // AsSingleRow on a result that does not have one row

  /** How far a handler has come and what it remembers from the statements it has executed. */
  datatype Handler =
    | Start(request: Request)
    | Found(request: Request, ids: seq<int>)
    | FoundUser(request: Request, id: int, row: User)
    | Wrote(request: Request, id: int)
    | Finished(request: Request, response: Response)

  datatype Turn = Turn(handler: Handler, db: Db)

  // ---- the statements the handlers issue ----

  /** The slug always comes from the title. */
  function CreateStatement(r: Request): Mutation
    requires r.CreateArticle?
  {
    AddNewArticle(r.title, Slugify(r.title), r.description, r.body, r.user, r.tagList)
  }

  /** A new slug is sent exactly when a new title is; the tag list of the request is not sent at all. */
  function EditStatement(r: Request): Mutation
    requires r.EditArticle?
  {
    var newSlug := if r.newTitle.Some? then Some(Slugify(r.newTitle.value)) else None;
    UpdateArticleBySlug(r.slug, r.user, ArticlePatch(r.newTitle, newSlug, r.newDescription, r.newBody))
  }

  // ---- single steps ----

  /** Only the edit statement may return no row without a mismatch: nothing of the caller's is at that slug. */
  function WroteOne(r: Request, reply: Reply): Handler {
    match reply
    case Error(e) => Finished(r, if e == UniqueViolation(UniqSlug) && !r.PostComment? then Taken("slug")
                                 else Crashed(e))
    case Ids(ids) => if ids == [] && r.EditArticle? then Finished(r, NotFound)
                     else if |ids| == 1 then Wrote(r, ids[0])
                     else Finished(r, RowCountMismatch)
    case _ => Finished(r, RowCountMismatch)
  }

  function Registered(r: Request, reply: Reply): Handler
    requires r.RegisterUser?
  {
    match reply
    case Error(UniqueViolation(UniqUsername)) => Finished(r, Taken("username"))
    case Error(UniqueViolation(UniqEmail)) => Finished(r, Taken("email"))
    case Error(e) => Finished(r, Crashed(e))
    case Ids(ids) => Finished(r, if |ids| == 1 then TokenFor(ids[0], Account(r.email, r.username, None, None))
                                   else RowCountMismatch)
    case _ => Finished(r, RowCountMismatch)
  }

  /** The account handler does not catch unique violations. */
  function Edited(r: Request, reply: Reply): Handler {
    match reply
    case Error(e) => Finished(r, Crashed(e))
    case UserRows(rows) => Finished(r, if rows == [] then NotFound
                                       else if |rows| == 1 then UserBody(AccountOf(rows[0].1))
                                       else RowCountMismatch)
    case _ => Finished(r, RowCountMismatch)
  }

  function LoggedIn(r: Request, rows: seq<(int, User)>): Handler
    requires r.LogIn?
  {
    Finished(r, if rows == [] then Forbidden("email")
                else if |rows| != 1 then RowCountMismatch
                else if !PasswordMatches(r.password, rows[0].1.hash) then Forbidden("password")
                else TokenFor(rows[0].0, AccountOf(rows[0].1)))
  }

  function Located(r: Request, ids: seq<int>): Handler {
    if ids == [] then Finished(r, NotFound) else Found(r, ids)
  }

  function LocatedUser(r: Request, rows: seq<(int, User)>): Handler {
    if rows == [] then Finished(r, NotFound)
    else if |rows| == 1 then FoundUser(r, rows[0].0, rows[0].1)
    else Finished(r, RowCountMismatch)
  }

  /** AsSingleRow on the first lookup runs only after the second statement. */
  function WroteFavorite(r: Request, ids: seq<int>, reply: Reply): Handler {
    if reply.Error? then Finished(r, Crashed(reply.error))
    else if |ids| == 1 then Wrote(r, ids[0])
    else Finished(r, RowCountMismatch)
  }

  function Deleted(r: Request, reply: Reply): Handler {
    Finished(r, if reply.Error? then Crashed(reply.error) else Empty)
  }

  function Followed(r: Request, row: User, following: bool, reply: Reply): Handler {
    Finished(r, if reply.Error? then Crashed(reply.error)
                else ProfileBody(Profile(row.username, row.bio, row.image, following)))
  }

  function ReadBack(r: Request, rows: seq<ArticleView>): Handler {
    Finished(r, if |rows| == 1 then ArticleBody(ParseArticle(rows[0])) else RowCountMismatch)
  }

  function ReadCommentBack(r: Request, rows: seq<CommentView>): Handler {
    Finished(r, if |rows| == 1 then CommentBody(rows[0]) else RowCountMismatch)
  }

  predicate CanAdvance(h: Handler) {
    match h
    case Start(_) => true
    case Found(r, _) => r.RemoveArticle? || r.RemoveComment? || r.AddFavorite? || r.RemoveFavorite?
    case FoundUser(r, _, _) => r.FollowUser? || r.UnfollowUser?
    case Wrote(r, _) => r.CreateArticle? || r.EditArticle? || r.PostComment? || r.AddFavorite? || r.RemoveFavorite?
    case Finished(_, _) => false
  }

  /** The statement a handler executes next when that statement writes. */
  function NextWrite(h: Handler): Option<Mutation> {
    match h
    case Start(RegisterUser(username, email, hash)) => Some(AddNewUser(username, email, hash))
    case Start(EditUser(user, p)) => Some(UpdateUserById(user, p))
    case Start(CreateArticle(_, _, _, _, _)) => Some(CreateStatement(h.request))
    case Start(EditArticle(_, _, _, _, _)) => Some(EditStatement(h.request))
    case Start(PostComment(user, slug, body)) => Some(AddCommentToArticle(slug, body, user))
    case Found(RemoveArticle(user, slug), _) => Some(DeleteArticleBySlug(slug, user))
    case Found(RemoveComment(user, slug, comment), _) => Some(DeleteComment(comment, slug, user))
    case Found(AddFavorite(user, slug), _) => Some(FavoriteArticle(slug, user))
    case Found(RemoveFavorite(user, slug), _) => Some(UnfavoriteArticle(slug, user))
    case FoundUser(FollowUser(user, _), id, _) => Some(Follow(user, id))
    case FoundUser(UnfollowUser(user, _), id, _) => Some(Unfollow(user, id))
    case _ => None
  }

  /** What the handler makes of the reply to a write. */
  function AfterWrite(h: Handler, reply: Reply): Handler
    requires NextWrite(h).Some?
  {
    match h
    case Start(RegisterUser(_, _, _)) => Registered(h.request, reply)
    case Start(EditUser(_, _)) => Edited(h.request, reply)
    case Start(_) => WroteOne(h.request, reply)
    case Found(RemoveArticle(_, _), _) => Deleted(h.request, reply)
    case Found(RemoveComment(_, _, _), _) => Deleted(h.request, reply)
    case Found(_, ids) => WroteFavorite(h.request, ids, reply)
    case FoundUser(_, _, row) => Followed(h.request, row, h.request.FollowUser?, reply)
    case _ => h
  }

  /** What the handler makes of a read; is_comment_exist answers with one boolean row. */
  ghost function AfterRead(h: Handler, t: Tables, sc: Scan): Handler
    requires CanAdvance(h) && NextWrite(h).None? && ScanOf(sc, t)
  {
    match h
    case Start(LogIn(email, _)) => LoggedIn(h.request, GetUserByEmail(t, sc.users, email))
    case Start(RemoveArticle(_, slug)) => Located(h.request, GetArticleIdBySlug(t, sc.articles, slug))
    case Start(AddFavorite(_, slug)) => Located(h.request, GetArticleIdBySlug(t, sc.articles, slug))
    case Start(RemoveFavorite(_, slug)) => Located(h.request, GetArticleIdBySlug(t, sc.articles, slug))
    case Start(RemoveComment(user, slug, comment)) =>
      if CommentMatches(t, comment, slug, user) then Found(h.request, []) else Finished(h.request, NotFound)
    case Start(FollowUser(_, username)) => LocatedUser(h.request, GetUserByUsername(t, sc.users, username))
    case Start(UnfollowUser(_, username)) => LocatedUser(h.request, GetUserByUsername(t, sc.users, username))
    case Wrote(PostComment(user, _, _), id) => ReadCommentBack(h.request, GetComment(t, sc, id, Some(user)))
    case Wrote(r, id) => ReadBack(r, GetArticle(t, sc, id, Some(r.user)))
    case _ => h
  }

  /** One statement of a handler, executed at the time `now`. */
  ghost function Advance(h: Handler, db: Db, now: int): Turn {
    if !CanAdvance(h) then Turn(h, db)
    else
      match NextWrite(h)
      case Some(m) =>
        var r := Apply(m, now, db);
        Turn(AfterWrite(h, r.reply), r.db)
      case None => Turn(AfterRead(h, db.tables, SomeScan(db.tables)), db)
  }

  lemma Writing(h: Handler, db: Db, now: int)
    requires CanAdvance(h) && NextWrite(h).Some?
    ensures
      var r := Apply(NextWrite(h).value, now, db);
      Advance(h, db, now) == Turn(AfterWrite(h, r.reply), r.db)
  {
    hide Apply, SomeScan;
  }

  lemma ReadingBack(r: Request, id: int, db: Db, now: int)
    requires r.CreateArticle? || r.EditArticle? || r.AddFavorite? || r.RemoveFavorite?
    ensures
      Advance(Wrote(r, id), db, now)
      == Turn(ReadBack(r, GetArticle(db.tables, SomeScan(db.tables), id, Some(r.user))), db)
  {
    hide SomeScan, GetArticle, Apply;
  }

  lemma ReadingCommentBack(r: Request, id: int, db: Db, now: int)
    requires r.PostComment?
    ensures
      Advance(Wrote(r, id), db, now)
      == Turn(ReadCommentBack(r, GetComment(db.tables, SomeScan(db.tables), id, Some(r.user))), db)
  {
    hide SomeScan, GetComment, Apply;
  }

  function StepsLeft(h: Handler): nat {
    match h
    case Start(_) => 3
    case Found(_, _) => 2
    case FoundUser(_, _, _) => 2
    case Wrote(_, _) => 1
    case Finished(_, _) => 0
  }

  lemma AdvanceComesCloser(h: Handler, db: Db, now: int)
    requires CanAdvance(h)
    ensures StepsLeft(Advance(h, db, now).handler) < StepsLeft(h)
  {
    hide Apply, SomeScan;
    hide GetArticle, GetComment, GetUserByEmail, GetUserByUsername, GetArticleIdBySlug, CommentMatches;
  }

  /** A handler that runs to its end with nothing in between. */
  ghost function Complete(h: Handler, db: Db, now: int): Turn
    decreases StepsLeft(h)
  {
    if !CanAdvance(h) then Turn(h, db)
    else
      AdvanceComesCloser(h, db, now);
      var next := Advance(h, db, now);
      Complete(next.handler, next.db, now)
  }
}

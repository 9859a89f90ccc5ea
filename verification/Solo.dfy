/**
 * A request that runs with nothing in between.  However many statements its handler issues, it then does what one
 * operation on the abstract store does, and every result it takes for a single row is one.
 */
module Solo {
  import opened Prelude
  import opened Text
  import opened Schema
  import opened Mutators
  import opened Queries
  import opened IntegrityProofs
  import opened AbstractStore
  import opened Refinement
  import opened Views
  import opened Listings
  import opened Counting
  import opened Handlers
  import opened Interleaving
  import opened Outcomes

  // ---- each request as one operation on the abstract store ----

  datatype Served = Served(response: Response, store: Store)

  ghost function ArticlePage(s: Store, a: int, viewer: int): Response
    requires a in s.posts && s.posts[a].row.author in s.users
  {
    ArticleBody(ParseArticle(ViewOf(s, a, Some(viewer))))
  }

  /** Only a slug clash is told to the caller. */
  function SlugError(e: DbError): Response {
    if e == UniqueViolation(UniqSlug) then Taken("slug") else Crashed(e)
  }

  function AccountError(e: DbError): Response {
    if e == UniqueViolation(UniqUsername) then Taken("username")
    else if e == UniqueViolation(UniqEmail) then Taken("email")
    else Crashed(e)
  }

  ghost function ServeCreate(s: Store, r: Request, now: int): Served
    requires HasAuthors(s) && r.CreateArticle?
  {
    var a, id := Publish(s, CreateStatement(r), now), s.serials.articles + 1;
    Served(if a.reply.Error? then SlugError(a.reply.error) else ArticlePage(a.store, id, r.user), a.store)
  }

  ghost function ServeEdit(s: Store, r: Request, now: int): Served
    requires HasAuthors(s) && r.EditArticle?
  {
    var m := EditStatement(r);
    var a := Revise(s, r.slug, r.user, m.articlePatch, now);
    Served(if a.reply.Error? then SlugError(a.reply.error)
           else if a.reply == Ids([]) then NotFound
           else ArticlePage(a.store, PostAt(s, r.slug).value, r.user), a.store)
  }

  ghost function ServeComment(s: Store, r: Request, now: int): Served
    requires r.PostComment?
  {
    var a, id := AddRemark(s, r.slug, r.body, r.user, now), s.serials.comments + 1;
    Served(if a.reply.Error? then Crashed(a.reply.error)
           else CommentBody(RemarkView(a.store, PostAt(s, r.slug).value, id, Some(r.user))), a.store)
  }

  /** On a post at the slug, then the fan is added or dropped and the same post is shown. */
  ghost function ServeFavorite(s: Store, r: Request): Served
    requires HasAuthors(s) && (r.AddFavorite? || r.RemoveFavorite?)
  {
    match PostAt(s, r.slug)
    case None => Served(NotFound, s)
    case Some(a) =>
      var done := if r.AddFavorite? then AddFan(s, r.slug, r.user) else DropFan(s, r.slug, r.user);
      Served(if done.reply.Error? then Crashed(done.reply.error) else ArticlePage(done.store, a, r.user), done.store)
  }

  ghost function ServeFollow(s: Store, r: Request): Served
    requires r.FollowUser? || r.UnfollowUser?
  {
    match UserNamed(s.users, r.username)
    case None => Served(NotFound, s)
    case Some(u) =>
      var done := if r.FollowUser? then StartFollowing(s, r.user, u) else StopFollowing(s, r.user, u);
      Served(if done.reply.Error? then Crashed(done.reply.error)
             else ProfileBody(ProfileOf(done.store, u, Some(r.user))), done.store)
  }

  ghost function ServeRemoval(s: Store, r: Request): Served
    requires r.RemoveArticle? || r.RemoveComment?
  {
    match PostAt(s, r.slug)
    case None => Served(NotFound, s)
    case Some(a) =>
      if r.RemoveArticle? then
        var done := Withdraw(s, r.slug, r.user);
        Served(if done.reply.Error? then Crashed(done.reply.error) else Empty, done.store)
      else if r.comment in s.posts[a].remarks && s.posts[a].remarks[r.comment].author == r.user then
        Served(Empty, DropRemark(s, r.comment, r.slug, r.user).store)
      else Served(NotFound, s)
  }

  ghost function ServeAccount(s: Store, r: Request): Served
    requires r.RegisterUser? || r.LogIn? || r.EditUser?
  {
    if r.RegisterUser? then
      var a := Register(s, r.username, r.email, r.hash);
      Served(if a.reply.Error? then AccountError(a.reply.error)
             else TokenFor(s.serials.users + 1, Account(r.email, r.username, None, None)), a.store)
    else if r.LogIn? then
      var at := AccountAt(s.users, r.email);
      Served(if at.None? then Forbidden("email")
             else if !PasswordMatches(r.password, s.users[at.value].hash) then Forbidden("password")
             else TokenFor(at.value, AccountOf(s.users[at.value])), s)
    else
      var a := Edit(s, r.user, r.userPatch);
      Served(if a.reply.Error? then Crashed(a.reply.error)
             else if r.user in s.users then UserBody(AccountOf(a.store.users[r.user])) else NotFound, a.store)
  }

  ghost function Serve(s: Store, r: Request, now: int): Served
    requires HasAuthors(s)
  {
    match r
    case CreateArticle(_, _, _, _, _) => ServeCreate(s, r, now)
    case EditArticle(_, _, _, _, _) => ServeEdit(s, r, now)
    case PostComment(_, _, _) => ServeComment(s, r, now)
    case AddFavorite(_, _) => ServeFavorite(s, r)
    case RemoveFavorite(_, _) => ServeFavorite(s, r)
    case FollowUser(_, _) => ServeFollow(s, r)
    case UnfollowUser(_, _) => ServeFollow(s, r)
    case RemoveArticle(_, _) => ServeRemoval(s, r)
    case RemoveComment(_, _, _) => ServeRemoval(s, r)
    case _ => ServeAccount(s, r)
  }

  // ---- running a handler to its end ----

  lemma CompleteUnfolds(h: Handler, db: Db, now: int)
    requires CanAdvance(h)
    ensures
      var next := Advance(h, db, now);
      Complete(h, db, now) == Complete(next.handler, next.db, now)
  {
    hide Advance;
  }

  lemma FinishedIsComplete(r: Request, response: Response, db: Db, now: int)
    ensures Complete(Finished(r, response), db, now) == Turn(Finished(r, response), db)
  {
  }

  /** A write whose reply ends the handler. */
  lemma WriteEnds(h: Handler, db: Db, now: int)
    requires CanAdvance(h) && NextWrite(h).Some?
    requires AfterWrite(h, Apply(NextWrite(h).value, now, db).reply).Finished?
    ensures
      var r := Apply(NextWrite(h).value, now, db);
      Complete(h, db, now) == Turn(AfterWrite(h, r.reply), r.db)
  {
    hide Advance, Apply, AfterWrite, NextWrite, CanAdvance;
    var r := Apply(NextWrite(h).value, now, db);
    Writing(h, db, now);
    CompleteUnfolds(h, db, now);
    var end := AfterWrite(h, r.reply);
    FinishedIsComplete(end.request, end.response, r.db, now);
  }

  predicate ShowsArticle(r: Request) {
    r.CreateArticle? || r.EditArticle? || r.AddFavorite? || r.RemoveFavorite?
  }

  /** A write after which the handler shows an article that is there. */
  lemma WriteThenPage(h: Handler, db: Db, now: int)
    requires Integrity(db) && CanAdvance(h) && NextWrite(h).Some? && ShowsArticle(h.request)
    requires
      var r := Apply(NextWrite(h).value, now, db);
      var end := AfterWrite(h, r.reply);
      end.Wrote? && end.request == h.request && end.id in r.db.tables.articles
    ensures
      var r := Apply(NextWrite(h).value, now, db);
      var s, id := Abstract(r.db), AfterWrite(h, r.reply).id;
      && id in s.posts && s.posts[id].row.author in s.users
      && Complete(h, db, now) == Turn(Finished(h.request, ArticlePage(s, id, h.request.user)), r.db)
  {
    hide Advance, Apply, AfterWrite, NextWrite, CanAdvance, Integrity, Abstract, ViewOf, ParseArticle;
    var m := NextWrite(h).value;
    var r := Apply(m, now, db);
    var end := AfterWrite(h, r.reply);
    ApplyKeepsIntegrity(m, now, db);
    Writing(h, db, now);
    CompleteUnfolds(h, db, now);
    ReadBackShows(r.db, h.request, end.id, now);
    WroteCanAdvance(h.request, end.id);
    CompleteUnfolds(end, r.db, now);
    var page := ArticlePage(Abstract(r.db), end.id, h.request.user);
    FinishedIsComplete(h.request, page, r.db, now);
  }

  lemma WroteCanAdvance(r: Request, id: int)
    requires ReadsBack(r)
    ensures CanAdvance(Wrote(r, id))
  {
  }

  // ---- each request is atomic ----

  ghost predicate IsAtomic(db: Db, r: Request, now: int)
    requires HasAuthors(Abstract(db))
  {
    var t, served := Complete(Start(r), db, now), Serve(Abstract(db), r, now);
    && t.handler == Finished(r, served.response)
    && Abstract(t.db) == served.store
    && Integrity(t.db)
  }

  lemma CreateIsAtomic(db: Db, r: Request, now: int)
    requires Integrity(db) && HasAuthors(Abstract(db)) && CallerOk(db, r) && r.CreateArticle?
    ensures IsAtomic(db, r, now)
  {
    hide Integrity, Abstract, Complete, AddArticle, SlugInUse, FirstTooLong, ArticlePage;
    var m, h := CreateStatement(r), Start(r);
    ApplyCommutes(m, now, db);
    ApplyKeepsIntegrity(m, now, db);
    CreateReply(db, m, now);
    AbstractParts(db, Abstract(db));
    var c := Apply(m, now, db);
    if c.reply.Error? {
      WriteEnds(h, db, now);
    } else {
      WriteThenPage(h, db, now);
      AbstractParts(c.db, Abstract(c.db));
    }
  }

  lemma EditIsAtomic(db: Db, r: Request, now: int)
    requires Integrity(db) && HasAuthors(Abstract(db)) && CallerOk(db, r) && r.EditArticle?
    ensures IsAtomic(db, r, now)
  {
    hide Integrity, Abstract, Complete, UpdateArticle, ArticleAt, PostAt, SlugInUse, ArticlePage;
    var m, h := EditStatement(r), Start(r);
    ApplyCommutes(m, now, db);
    ApplyKeepsIntegrity(m, now, db);
    EditReply(db, r.slug, r.user, m.articlePatch, now);
    var c := Apply(m, now, db);
    if c.reply.Ids? && c.reply.ids != [] {
      WriteThenPage(h, db, now);
    } else {
      WriteEnds(h, db, now);
    }
  }

  /** A new comment is shown as the remark it has become. */
  lemma CommentIsShown(db: Db, r: Request, id: int, now: int)
    requires Integrity(db) && r.PostComment? && id in db.tables.comments
    ensures
      var s, a := Abstract(db), db.tables.comments[id].article;
      && a in s.posts && id in s.posts[a].remarks && s.posts[a].remarks[id].author in s.users
      && Complete(Wrote(r, id), db, now) == Turn(Finished(r, CommentBody(RemarkView(s, a, id, Some(r.user)))), db)
  {
    hide Advance, Integrity, Abstract, RemarkView;
    var sc := SomeScan(db.tables);
    CommentsAgree(db, sc, sc.comments, id, Some(r.user));
    ReadingCommentBack(r, id, db, now);
    CompleteUnfolds(Wrote(r, id), db, now);
  }

  lemma CommentIsAtomic(db: Db, r: Request, now: int)
    requires Integrity(db) && HasAuthors(Abstract(db)) && CallerOk(db, r) && r.PostComment?
    ensures IsAtomic(db, r, now)
  {
    hide Integrity, Abstract, Complete, Advance, ArticleAt, PostAt, RemarkView;
    var h, m := Start(r), AddCommentToArticle(r.slug, r.body, r.user);
    ApplyCommutes(m, now, db);
    ApplyKeepsIntegrity(m, now, db);
    CommentReply(db, r.slug, r.body, r.user, now);
    LookupsAgree(db, r.slug);
    AbstractParts(db, Abstract(db));
    var c := Apply(m, now, db);
    if c.reply.Error? {
      WriteEnds(h, db, now);
    } else {
      Writing(h, db, now);
      CompleteUnfolds(h, db, now);
      CommentIsShown(c.db, r, db.serials.comments + 1, now);
    }
  }

  lemma FavoriteIsAtomic(db: Db, r: Request, now: int)
    requires Integrity(db) && HasAuthors(Abstract(db)) && CallerOk(db, r) && (r.AddFavorite? || r.RemoveFavorite?)
    ensures IsAtomic(db, r, now)
  {
    hide Integrity, Abstract, Complete, Advance, ArticleAt, PostAt, ArticlePage;
    LookupFinds(db, r, now);
    LookupsAgree(db, r.slug);
    CompleteUnfolds(Start(r), db, now);
    var at := ArticleAt(db.tables, r.slug);
    if at.None? {
      FinishedIsComplete(r, NotFound, db, now);
    } else {
      var h := Found(r, [at.value]);
      var m := NextWrite(h).value;
      ApplyCommutes(m, now, db);
      ApplyKeepsIntegrity(m, now, db);
      if Apply(m, now, db).reply.Error? {
        WriteEnds(h, db, now);
      } else {
        WriteThenPage(h, db, now);
      }
    }
  }

  lemma RemoveArticleIsAtomic(db: Db, r: Request, now: int)
    requires Integrity(db) && HasAuthors(Abstract(db)) && r.RemoveArticle?
    ensures IsAtomic(db, r, now)
  {
    hide Integrity, Abstract, Complete, Advance, ArticleAt, PostAt, DeleteArticle;
    LookupFinds(db, r, now);
    LookupsAgree(db, r.slug);
    CompleteUnfolds(Start(r), db, now);
    var at := ArticleAt(db.tables, r.slug);
    if at.None? {
      FinishedIsComplete(r, NotFound, db, now);
    } else {
      var m := DeleteArticleBySlug(r.slug, r.user);
      ApplyCommutes(m, now, db);
      ApplyKeepsIntegrity(m, now, db);
      WriteEnds(Found(r, [at.value]), db, now);
    }
  }

  lemma CheckedDelete(db: Db, r: Request, now: int)
    requires r.RemoveComment?
    ensures
      var done := Mutators.RemoveComment(db, r.comment, r.slug, r.user).db;
      Advance(Found(r, []), db, now) == Turn(Finished(r, Empty), done)
  {
    hide CommentMatches, SomeScan;
  }

  lemma CommentAlone(db: Db, r: Request, now: int)
    requires r.RemoveComment?
    ensures
      Complete(Start(r), db, now)
      == if CommentMatches(db.tables, r.comment, r.slug, r.user)
         then Turn(Finished(r, Empty), Mutators.RemoveComment(db, r.comment, r.slug, r.user).db)
         else Turn(Finished(r, NotFound), db)
  {
    hide Advance, Mutators.RemoveComment, CommentMatches;
    CommentLookup(db, r, now);
    CompleteUnfolds(Start(r), db, now);
    if CommentMatches(db.tables, r.comment, r.slug, r.user) {
      CheckedDelete(db, r, now);
      CompleteUnfolds(Found(r, []), db, now);
      FinishedIsComplete(r, Empty, Mutators.RemoveComment(db, r.comment, r.slug, r.user).db, now);
    } else {
      FinishedIsComplete(r, NotFound, db, now);
    }
  }

  lemma RemoveCommentIsAtomic(db: Db, r: Request, now: int)
    requires Integrity(db) && HasAuthors(Abstract(db)) && r.RemoveComment?
    ensures IsAtomic(db, r, now)
  {
    hide Integrity, Abstract, Complete, Advance, CommentMatches, PostAt, DropRemark;
    var m := DeleteComment(r.comment, r.slug, r.user);
    CommentLookup(db, r, now);
    CommentFilterAgrees(db, r.comment, r.slug, r.user);
    CompleteUnfolds(Start(r), db, now);
    if CommentMatches(db.tables, r.comment, r.slug, r.user) {
      ApplyCommutes(m, now, db);
      ApplyKeepsIntegrity(m, now, db);
      WriteEnds(Found(r, []), db, now);
    } else {
      FinishedIsComplete(r, NotFound, db, now);
    }
  }

  lemma CommentLookup(db: Db, r: Request, now: int)
    requires r.RemoveComment?
    ensures
      Advance(Start(r), db, now)
      == Turn(if CommentMatches(db.tables, r.comment, r.slug, r.user) then Found(r, []) else Finished(r, NotFound), db)
  {
    hide CommentMatches, SomeScan, Apply;
  }

  lemma FollowIsAtomic(db: Db, r: Request, now: int)
    requires Integrity(db) && HasAuthors(Abstract(db)) && (r.FollowUser? || r.UnfollowUser?)
    ensures IsAtomic(db, r, now)
  {
    hide Integrity, Abstract, Complete, Advance, UserNamed;
    UserLookup(db, r, now);
    CompleteUnfolds(Start(r), db, now);
    AbstractParts(db, Abstract(db));
    var at := UserNamed(db.tables.users, r.username);
    if at.None? {
      FinishedIsComplete(r, NotFound, db, now);
    } else {
      var h := FoundUser(r, at.value, db.tables.users[at.value]);
      var m := NextWrite(h).value;
      ApplyCommutes(m, now, db);
      ApplyKeepsIntegrity(m, now, db);
      WriteEnds(h, db, now);
    }
  }

  lemma UserLookup(db: Db, r: Request, now: int)
    requires Integrity(db) && (r.FollowUser? || r.UnfollowUser?)
    ensures
      Advance(Start(r), db, now)
      == Turn(match UserNamed(db.tables.users, r.username)
              case None => Finished(r, NotFound)
              case Some(u) => FoundUser(r, u, db.tables.users[u]), db)
  {
    hide Integrity, GetUserByUsername, UserNamed, Apply;
    NameFinds(db, SomeScan(db.tables), r.username);
  }

  lemma NameFinds(db: Db, sc: Scan, name: string)
    requires Integrity(db) && ScanOf(sc, db.tables)
    ensures
      GetUserByUsername(db.tables, sc.users, name)
      == match UserNamed(db.tables.users, name)
         case None => []
         case Some(u) => [(u, db.tables.users[u])]
  {
    NamedRows(db.tables, db.serials, sc.users, name, None);
  }

  lemma AccountIsAtomic(db: Db, r: Request, now: int)
    requires Integrity(db) && HasAuthors(Abstract(db)) && (r.RegisterUser? || r.LogIn? || r.EditUser?)
    ensures IsAtomic(db, r, now)
  {
    hide Integrity, Abstract, Complete, Advance, UsernameTaken, EmailTaken, AccountAt;
    AbstractParts(db, Abstract(db));
    if r.LogIn? {
      EmailLookup(db, r, now);
      CompleteUnfolds(Start(r), db, now);
      var next := Advance(Start(r), db, now);
      FinishedIsComplete(r, next.handler.response, db, now);
    } else {
      var m := NextWrite(Start(r)).value;
      ApplyCommutes(m, now, db);
      ApplyKeepsIntegrity(m, now, db);
      if r.RegisterUser? {
        RegisterReply(db, r.username, r.email, r.hash);
      }
      WriteEnds(Start(r), db, now);
    }
  }

  lemma EmailLookup(db: Db, r: Request, now: int)
    requires Integrity(db) && r.LogIn?
    ensures
      Advance(Start(r), db, now)
      == Turn(match AccountAt(db.tables.users, r.email)
              case None => Finished(r, Forbidden("email"))
              case Some(u) =>
                var row := db.tables.users[u];
                Finished(r, if PasswordMatches(r.password, row.hash) then TokenFor(u, AccountOf(row))
                            else Forbidden("password")), db)
  {
    hide Integrity, GetUserByEmail, AccountAt, Apply;
    EmailFinds(db, SomeScan(db.tables), r.email);
  }

  lemma EmailFinds(db: Db, sc: Scan, email: string)
    requires Integrity(db) && ScanOf(sc, db.tables)
    ensures
      GetUserByEmail(db.tables, sc.users, email)
      == match AccountAt(db.tables.users, email)
         case None => []
         case Some(u) => [(u, db.tables.users[u])]
  {
    EmailRows(db.tables, db.serials, sc.users, email);
  }

  /**
   * Without interference every request, with its up to three statements and whether or not it succeeds, answers and
   * changes the store as the one operation it stands for.  In particular no result is ever mistaken for a single row.
   */
  lemma EveryRequestIsAtomic(db: Db, r: Request, now: int)
    requires Integrity(db) && CallerOk(db, r)
    ensures HasAuthors(Abstract(db))
    ensures IsAtomic(db, r, now)
  {
    hide Integrity, Abstract, CallerOk, IsAtomic;
    AuthorsExist(db);
    match r
    case CreateArticle(_, _, _, _, _) => CreateIsAtomic(db, r, now);
    case EditArticle(_, _, _, _, _) => EditIsAtomic(db, r, now);
    case PostComment(_, _, _) => CommentIsAtomic(db, r, now);
    case AddFavorite(_, _) => FavoriteIsAtomic(db, r, now);
    case RemoveFavorite(_, _) => FavoriteIsAtomic(db, r, now);
    case FollowUser(_, _) => FollowIsAtomic(db, r, now);
    case UnfollowUser(_, _) => FollowIsAtomic(db, r, now);
    case RemoveArticle(_, _) => RemoveArticleIsAtomic(db, r, now);
    case RemoveComment(_, _, _) => RemoveCommentIsAtomic(db, r, now);
    case _ => AccountIsAtomic(db, r, now);
  }

  // ---- what this means for callers ----

  lemma ServedIsNoMismatch(s: Store, r: Request, now: int)
    requires HasAuthors(s)
    ensures Serve(s, r, now).response != RowCountMismatch
  {
    hide Publish, Revise, AddRemark, AddFan, DropFan, StartFollowing, StopFollowing, Withdraw, DropRemark, Register;
    hide Edit, ViewOf, RemarkView, ProfileOf, ParseArticle;
  }

  /** Without interference every result that a handler takes for a single row is one. */
  lemma EverySingleRowIsOne(db: Db, r: Request, now: int)
    requires Integrity(db) && CallerOk(db, r)
    ensures
      var t := Complete(Start(r), db, now);
      t.handler.Finished? && t.handler.response != RowCountMismatch
  {
    hide Integrity, Complete, Serve, Abstract;
    EveryRequestIsAtomic(db, r, now);
    ServedIsNoMismatch(Abstract(db), r, now);
  }

  ghost predicate OneSlugEach(s: Store) {
    forall a, b | a in s.posts && b in s.posts :: s.posts[a].row.slug == s.posts[b].row.slug ==> a == b
  }

  lemma StoreFacts(db: Db)
    requires Integrity(db)
    ensures HasAuthors(Abstract(db)) && OneSlugEach(Abstract(db))
    ensures forall a | a in Abstract(db).posts :: |Abstract(db).posts[a].fans| <= MAX_INT32
    ensures Abstract(db).users == db.tables.users
  {
    AbstractRows(db);
    forall a | a in db.tables.articles ensures |Abstract(db).posts[a].fans| <= MAX_INT32 {
      FansAreBounded(db, a);
    }
  }

  lemma FanComesAndGoes(s: Store, user: int, slug: string)
    requires HasAuthors(s) && OneSlugEach(s) && user in s.users && PostAt(s, slug).Some?
    ensures
      var a := PostAt(s, slug).value;
      var added := ServeFavorite(s, AddFavorite(user, slug));
      if user in s.posts[a].fans then added == Served(Crashed(UniqueViolation(PkFavorites)), s)
      else
        && a in added.store.posts && added.store.posts[a].fans == s.posts[a].fans + {user}
        && added.store.posts[a].row.author in added.store.users
        && added.response == ArticlePage(added.store, a, user)
        && HasAuthors(added.store)
        && ServeFavorite(added.store, RemoveFavorite(user, slug)) == Served(ArticlePage(s, a, user), s)
  {
    hide ArticlePage;
    var a := PostAt(s, slug).value;
    if user !in s.posts[a].fans {
      var t := ServeFavorite(s, AddFavorite(user, slug)).store;
      assert PostAt(t, slug) == Some(a) by {
        assert t.posts[a].row.slug == slug;
        assert t.posts[PostAt(t, slug).value].row.slug == s.posts[PostAt(t, slug).value].row.slug;
      }
      assert s.posts[a].fans + {user} - {user} == s.posts[a].fans;
      assert DropFan(t, slug, user).store == s by {
        assert DropFan(t, slug, user).store.posts == s.posts;
      }
    }
  }

  /**
   * A favorite shows: the answer says so and counts the caller.  Doing it again crashes and changes nothing; taking it
   * back answers as if it had never been there and restores the store.
   */
  lemma FavoriteIsSeen(db: Db, user: int, slug: string, now: int)
    requires Integrity(db) && user in db.tables.users && PostAt(Abstract(db), slug).Some?
    ensures
      var fans := Abstract(db).posts[PostAt(Abstract(db), slug).value].fans;
      var t := Complete(Start(AddFavorite(user, slug)), db, now);
      var u := Complete(Start(RemoveFavorite(user, slug)), t.db, now);
      && t.handler.Finished?
      && if user in fans then
           t.handler.response == Crashed(UniqueViolation(PkFavorites)) && Abstract(t.db) == Abstract(db)
         else
           && t.handler.response.ArticleBody? && t.handler.response.article.favorited
           && t.handler.response.article.favoritesCount == |fans| + 1
           && u.handler.Finished?
           && u.handler.response.ArticleBody? && !u.handler.response.article.favorited
           && u.handler.response.article.favoritesCount == |fans|
           && Abstract(u.db) == Abstract(db)
  {
    hide Integrity, Complete, ServeFavorite, Abstract, PostAt, HasAuthors, OneSlugEach;
    var s, a := Abstract(db), PostAt(Abstract(db), slug).value;
    var t := Complete(Start(AddFavorite(user, slug)), db, now);
    StoreFacts(db);
    EveryRequestIsAtomic(db, AddFavorite(user, slug), now);
    FanComesAndGoes(s, user, slug);
    if user !in s.posts[a].fans {
      StoreFacts(t.db);
      AccountStays(s, Abstract(t.db), user, slug);
      EveryRequestIsAtomic(t.db, RemoveFavorite(user, slug), now);
      assert |s.posts[a].fans + {user}| == |s.posts[a].fans| + 1;
      NarrowingIsLosslessIff(|s.posts[a].fans| + 1);
      NarrowingIsLosslessIff(|s.posts[a].fans|);
    }
  }

  lemma AccountStays(s: Store, s': Store, user: int, slug: string)
    requires HasAuthors(s) && user in s.users && s' == ServeFavorite(s, AddFavorite(user, slug)).store
    ensures user in s'.users
  {
    hide ArticlePage;
  }

  /** A delete answers without an error and leaves the article where it is exactly when it is somebody else's. */
  lemma StrangersDeleteNothing(db: Db, user: int, slug: string, now: int)
    requires Integrity(db) && user in db.tables.users
    ensures
      var s, t := Abstract(db), Complete(Start(RemoveArticle(user, slug)), db, now);
      && t.handler.Finished?
      && (t.handler.response == Empty && PostAt(Abstract(t.db), slug).Some?
          <==> PostAt(s, slug).Some? && s.posts[PostAt(s, slug).value].row.author != user)
      && (t.handler.response == Empty && Abstract(t.db) != s
          <==> PostAt(s, slug).Some? && s.posts[PostAt(s, slug).value].row.author == user
               && s.posts[PostAt(s, slug).value].fans == {})
  {
    hide Integrity, Complete, Abstract, HasAuthors;
    var s, t := Abstract(db), Complete(Start(RemoveArticle(user, slug)), db, now);
    StoreFacts(db);
    EveryRequestIsAtomic(db, RemoveArticle(user, slug), now);
    if PostAt(s, slug).Some? {
      var a := PostAt(s, slug).value;
      assert a !in (s.posts - {a});
    }
  }

  /**
   * A follow shows: the answer is the profile, followed; doing it again crashes and changes nothing; taking it back
   * answers with the profile, not followed, and restores the store.
   */
  lemma FollowIsSeen(db: Db, user: int, name: string, now: int)
    requires Integrity(db) && user in db.tables.users && UserNamed(db.tables.users, name).Some?
    ensures
      var s, u := Abstract(db), UserNamed(db.tables.users, name).value;
      var t := Complete(Start(FollowUser(user, name)), db, now);
      var v := Complete(Start(UnfollowUser(user, name)), t.db, now);
      && t.handler.Finished? && u in s.users
      && (t.handler.response == Crashed(UniqueViolation(PkFollowers)) <==> (user, u) in s.follows)
      && if (user, u) in s.follows then Abstract(t.db) == s
         else
           && t.handler.response == ProfileBody(ProfileOf(s, u, Some(user)).(following := true))
           && Abstract(t.db) == s.(follows := s.follows + {(user, u)})
           && v.handler.Finished?
           && v.handler.response == ProfileBody(ProfileOf(s, u, Some(user)))
           && Abstract(v.db) == s
  {
    hide Integrity, Complete, Abstract, HasAuthors, UserNamed;
    var s, u := Abstract(db), UserNamed(db.tables.users, name).value;
    var t := Complete(Start(FollowUser(user, name)), db, now);
    StoreFacts(db);
    EveryRequestIsAtomic(db, FollowUser(user, name), now);
    if (user, u) !in s.follows {
      StoreFacts(t.db);
      EveryRequestIsAtomic(t.db, UnfollowUser(user, name), now);
      assert s.follows + {(user, u)} - {(user, u)} == s.follows;
    }
  }

  datatype Visit = Visit(request: Request, now: int)

  /** Requests one after the other; each caller must have an account when its turn comes. */
  ghost predicate AllAdmitted(db: Db, visits: seq<Visit>)
    decreases |visits|
  {
    visits == [] || (
      && CallerOk(db, visits[0].request)
      && AllAdmitted(Complete(Start(visits[0].request), db, visits[0].now).db, visits[1..]))
  }

  ghost function Responses(db: Db, visits: seq<Visit>): (seq<Handler>, Db)
    decreases |visits|
  {
    if visits == [] then ([], db)
    else
      var t := Complete(Start(visits[0].request), db, visits[0].now);
      var rest := Responses(t.db, visits[1..]);
      ([t.handler] + rest.0, rest.1)
  }

  /** The same visits served on the abstract store; None if one of them found an author without an account. */
  ghost function ServeAll(s: Store, visits: seq<Visit>): Option<(seq<Handler>, Store)>
    decreases |visits|
  {
    if visits == [] then Some(([], s))
    else if !HasAuthors(s) then None
    else
      var served := Serve(s, visits[0].request, visits[0].now);
      match ServeAll(served.store, visits[1..])
      case None => None
      case Some(rest) => Some(([Finished(visits[0].request, served.response)] + rest.0, rest.1))
  }

  /** Whole histories of requests that do not overlap give, answer by answer, what the abstract store gives. */
  lemma {:induction false} SerialHistoriesRefine(db: Db, visits: seq<Visit>)
    requires Integrity(db) && AllAdmitted(db, visits)
    ensures
      var c := Responses(db, visits);
      ServeAll(Abstract(db), visits) == Some((c.0, Abstract(c.1))) && Integrity(c.1)
    decreases |visits|
  {
    hide Integrity, Complete, Serve, Abstract, CallerOk, HasAuthors;
    if visits != [] {
      EveryRequestIsAtomic(db, visits[0].request, visits[0].now);
      SerialHistoriesRefine(Complete(Start(visits[0].request), db, visits[0].now).db, visits[1..]);
    }
  }
}

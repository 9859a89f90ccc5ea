/** Any number of requests, interleaved statement by statement. */
module Interleaving {
  import opened Prelude
  import opened Text
  import opened Schema
  import opened Mutators
  import opened Queries
  import opened IntegrityProofs
  import opened AbstractStore
  import opened Refinement
  import opened Evolution
  import opened Views
  import opened Handlers

  /** `tokens` are the user ids that tokens have been issued for. */
  datatype World = World(db: Db, handlers: seq<Handler>, tokens: set<int>)

  datatype Event = Arrive(request: Request) | Step(i: nat, now: int)

  const EMPTY_WORLD := World(EMPTY_DB, [], {})

  function Caller(r: Request): Option<int> {
    match r
    case RegisterUser(_, _, _) => None
    case LogIn(_, _) => None
    case _ => Some(r.user)
  }

  function IssuedBy(h: Handler): set<int> {
    match h
    case Finished(_, TokenFor(id, _)) => {id}
    case _ => {}
  }

  /** A request is let in when it needs no caller or carries a token that was issued. */
  ghost function Next(w: World, e: Event): World {
    match e
    case Arrive(r) =>
      if Caller(r).None? || Caller(r).value in w.tokens then w.(handlers := w.handlers + [Start(r)]) else w
    case Step(i, now) =>
      if i >= |w.handlers| then w
      else
        var t := Advance(w.handlers[i], w.db, now);
        World(t.db, w.handlers[i := t.handler], w.tokens + IssuedBy(t.handler))
  }

  ghost function RunWorld(w: World, events: seq<Event>): World
    decreases |events|
  {
    if events == [] then w else RunWorld(Next(w, events[0]), events[1..])
  }

  // ---- the invariant ----

  predicate SlugsFollowTitles(t: Tables) {
    forall a | a in t.articles :: t.articles[a].slug == Slugify(t.articles[a].title)
  }

  function Requested(r: Request): set<string>
    requires r.CreateArticle?
  {
    set n | n in r.tagList.GetOr([])
  }

  predicate CallerOk(db: Db, r: Request) {
    Caller(r).None? || Caller(r).value in db.tables.users
  }

  /** The driver errors a request can still run into, however it is interleaved. */
  predicate MayCrash(r: Request, e: DbError) {
    match r
    case RegisterUser(_, _, _) => e in {SequenceExhausted, StringTooLong}
    case LogIn(_, _) => false
    case EditUser(_, _) => e in {StringTooLong, UniqueViolation(UniqUsername), UniqueViolation(UniqEmail)}
    case CreateArticle(_, _, _, _, _) => e in {SequenceExhausted, StringTooLong}
    case EditArticle(_, _, _, _, _) => e == StringTooLong
    case RemoveArticle(_, _) => e == ForeignKeyViolation
    case PostComment(_, _, _) => e in {SequenceExhausted, StringTooLong, NotNullViolation}
    case RemoveComment(_, _, _) => false
    case AddFavorite(_, _) => e in {NotNullViolation, UniqueViolation(PkFavorites)}
    case RemoveFavorite(_, _) => false
    case FollowUser(_, _) => e == UniqueViolation(PkFollowers)
    case UnfollowUser(_, _) => false
  }

  predicate ReadsBack(r: Request) {
    r.CreateArticle? || r.EditArticle? || r.PostComment? || r.AddFavorite? || r.RemoveFavorite?
  }

  ghost predicate ResponseOk(db: Db, r: Request, response: Response) {
    match response
    case TokenFor(id, _) => id in db.tables.users && (r.RegisterUser? || r.LogIn?)
    case ArticleBody(d) => r.CreateArticle? ==> d.tagList == SortedNames(Requested(r))
    case NotFound => !r.RegisterUser? && !r.LogIn? && !r.EditUser? && !r.CreateArticle? && !r.PostComment?
    case Crashed(e) => MayCrash(r, e)
    case RowCountMismatch => ReadsBack(r)
    case _ => true
  }

  ghost predicate ArticleRequest(r: Request) {
    r.RemoveArticle? || r.AddFavorite? || r.RemoveFavorite?
  }

  /** What is known about the row a handler has written, if the row is still there. */
  ghost predicate WroteOk(db: Db, r: Request, id: int) {
    var t := db.tables;
    match r
    case CreateArticle(user, _, _, _, _) =>
      && 1 <= id <= db.serials.articles
      && (id in t.articles ==> t.articles[id].author == user && TagNames(t, id) == Requested(r))
    case EditArticle(user, _, _, _, _) =>
      1 <= id <= db.serials.articles && (id in t.articles ==> t.articles[id].author == user)
    case PostComment(user, _, body) =>
      && 1 <= id <= db.serials.comments
      && (id in t.comments ==> t.comments[id].author == user && t.comments[id].body == body)
    case _ => 1 <= id <= db.serials.articles
  }

  ghost predicate HandlerOk(db: Db, h: Handler) {
    && CallerOk(db, h.request)
    && match h
       case Start(_) => true
       case Found(r, ids) =>
         r.RemoveComment? || (ArticleRequest(r) && |ids| == 1 && 1 <= ids[0] <= db.serials.articles)
       case FoundUser(r, id, _) => id in db.tables.users && (r.FollowUser? || r.UnfollowUser?)
       case Wrote(r, id) => ReadsBack(r) && WroteOk(db, r, id)
       case Finished(r, response) => ResponseOk(db, r, response)
  }

  ghost predicate WorldOk(w: World) {
    && Integrity(w.db)
    && SlugsFollowTitles(w.db.tables)
    && w.tokens <= w.db.tables.users.Keys
    && (forall i | 0 <= i < |w.handlers| :: HandlerOk(w.db, w.handlers[i]))
  }

  // ---- other requests cannot spoil what a handler relies on ----

  lemma HandlerStaysOk(db: Db, db': Db, h: Handler)
    requires Integrity(db) && HandlerOk(db, h) && Evolves(db, db')
    ensures HandlerOk(db', h)
  {
    hide Integrity, TagNames, SortedNames;
    IntegrityParts(db);
    hide UsersOk, TagsOk, LinksOk;
    match h
    case Wrote(r, id) => WriteStaysOk(db, db', r, id);
    case _ =>
  }

  lemma WriteStaysOk(db: Db, db': Db, r: Request, id: int)
    requires Integrity(db) && ReadsBack(r) && WroteOk(db, r, id) && Evolves(db, db')
    ensures WroteOk(db', r, id)
  {
    hide Integrity, TagNames;
    assert id in db'.tables.articles && id in db.tables.articles ==> SameOrigin(db.tables, db'.tables, id);
  }

  // ---- a step keeps the invariant for its own handler ----

  /** A slug is only ever written together with the title it comes from. */
  predicate SlugFromTitle(m: Mutation) {
    match m
    case AddNewArticle(title, slug, _, _, _, _) => slug == Slugify(title)
    case UpdateArticleBySlug(_, _, p) => p.slug == if p.title.Some? then Some(Slugify(p.title.value)) else None
    case _ => true
  }

  lemma SlugFromTitleKeepsSlugs(m: Mutation, now: int, db: Db)
    requires SlugsFollowTitles(db.tables) && SlugFromTitle(m)
    ensures SlugsFollowTitles(Apply(m, now, db).db.tables)
  {
    var t, t' := db.tables, Apply(m, now, db).db.tables;
    match m
    case AddNewArticle(_, _, _, _, _, _) =>
    case UpdateArticleBySlug(_, _, _) =>
    case DeleteArticleBySlug(_, _) =>
    case _ => assert t'.articles == t.articles;
  }

  lemma HandlersSendSlugsFromTitles(h: Handler)
    ensures NextWrite(h).Some? ==> SlugFromTitle(NextWrite(h).value)
  {
  }

  lemma AdvanceKeepsTables(h: Handler, db: Db, now: int)
    requires Integrity(db) && SlugsFollowTitles(db.tables)
    ensures
      var db' := Advance(h, db, now).db;
      Integrity(db') && Evolves(db, db') && SlugsFollowTitles(db'.tables)
  {
    hide Integrity, Evolves, SlugsFollowTitles, Apply, NextWrite;
    GrownSerialsEvolve(db, db.serials);
    if CanAdvance(h) && NextWrite(h).Some? {
      var m := NextWrite(h).value;
      HandlersSendSlugsFromTitles(h);
      ApplyKeepsIntegrity(m, now, db);
      ApplyEvolves(m, now, db);
      SlugFromTitleKeepsSlugs(m, now, db);
    } else {
      assert Advance(h, db, now).db == db;
    }
  }

  // ---- what each write tells its handler ----

  lemma RegisterReply(db: Db, username: string, email: string, hash: string)
    requires Integrity(db)
    ensures
      var r := AddUser(db, username, email, hash);
      match r.reply
      case Error(e) =>
        e in {SequenceExhausted, StringTooLong, UniqueViolation(UniqUsername), UniqueViolation(UniqEmail)}
      case Ids(ids) => |ids| == 1 && ids[0] in r.db.tables.users
      case _ => false
  {
    assert db.serials.users + 1 !in db.tables.users;
  }

  lemma CreateReply(db: Db, m: Mutation, now: int)
    requires Integrity(db) && m.AddNewArticle? && m.author in db.tables.users
    ensures
      var r := AddArticle(db, m, now);
      && r.db.tables.users == db.tables.users
      && match r.reply
         case Error(e) => e in {SequenceExhausted, StringTooLong, UniqueViolation(UniqSlug)}
         case Ids(ids) =>
           && ids == [r.db.serials.articles] && 1 <= ids[0] && ids[0] in r.db.tables.articles
           && r.db.tables.articles[ids[0]].author == m.author
           && TagNames(r.db.tables, ids[0]) == set n | n in m.tagList.GetOr([])
         case _ => false
  {
    hide Integrity, InsertTags, TagLinks, TagNames, SlugTaken;
    IntegrityParts(db);
    SerialKeysNeverClash(m, now, db);
    InsertTagsFacts(db.tables.tags, db.serials.tags, m.tagList.GetOr([]));
    hide UsersOk, ArticlesOk, TagsOk, TagTableOk, LinksOk, CommentsOk;
    if !AddArticle(db, m, now).reply.Error? {
      TagsRoundTrip(db, m, now, []);
    }
  }

  lemma CommentReply(db: Db, slug: string, body: string, user: int, now: int)
    requires Integrity(db) && user in db.tables.users
    ensures
      var r := AddComment(db, slug, body, user, now);
      && r.db.tables.users == db.tables.users
      && match r.reply
         case Error(e) => e in {SequenceExhausted, StringTooLong, NotNullViolation}
         case Ids(ids) =>
           && ids == [r.db.serials.comments] && 1 <= ids[0] && ids[0] in r.db.tables.comments
           && r.db.tables.comments[ids[0]].author == user && r.db.tables.comments[ids[0]].body == body
         case _ => false
  {
    hide Integrity, ArticleAt;
    IntegrityParts(db);
    FreshIds(db);
  }

  lemma EditReply(db: Db, slug: string, author: int, p: ArticlePatch, now: int)
    requires Integrity(db)
    ensures
      var r := UpdateArticle(db, slug, author, p, now);
      && r.db.tables.users == db.tables.users && r.db.serials == db.serials
      && match r.reply
         case Error(e) => e in {StringTooLong, UniqueViolation(UniqSlug)}
         case Ids(ids) =>
           ids == [] || (|ids| == 1 && 1 <= ids[0] <= db.serials.articles && ids[0] in r.db.tables.articles
                         && r.db.tables.articles[ids[0]].author == author)
         case _ => false
  {
    hide Integrity, SlugTaken;
    IntegrityParts(db);
    hide UsersOk, TagsOk, LinksOk, CommentsOk;
  }

  lemma RegisterOk(h: Handler, db: Db, now: int)
    requires Integrity(db) && h.Start? && h.request.RegisterUser?
    ensures HandlerOk(Advance(h, db, now).db, Advance(h, db, now).handler)
  {
    hide Advance, Integrity, AddUser;
    RegisterReply(db, h.request.username, h.request.email, h.request.hash);
    Writing(h, db, now);
  }

  lemma CreateOk(h: Handler, db: Db, now: int)
    requires Integrity(db) && CallerOk(db, h.request) && h.Start? && h.request.CreateArticle?
    ensures HandlerOk(Advance(h, db, now).db, Advance(h, db, now).handler)
  {
    hide Advance, Integrity, AddArticle, SortedNames, TagNames;
    CreateReply(db, CreateStatement(h.request), now);
    Writing(h, db, now);
  }

  lemma EditOk(h: Handler, db: Db, now: int)
    requires Integrity(db) && CallerOk(db, h.request) && h.Start? && h.request.EditArticle?
    ensures HandlerOk(Advance(h, db, now).db, Advance(h, db, now).handler)
  {
    hide Advance, Integrity, UpdateArticle, SortedNames;
    var m := EditStatement(h.request);
    EditReply(db, m.oldSlug, m.author, m.articlePatch, now);
    Writing(h, db, now);
  }

  lemma CommentOk(h: Handler, db: Db, now: int)
    requires Integrity(db) && CallerOk(db, h.request) && h.Start? && h.request.PostComment?
    ensures HandlerOk(Advance(h, db, now).db, Advance(h, db, now).handler)
  {
    hide Advance, Integrity, AddComment;
    var r := h.request;
    CommentReply(db, r.slug, r.body, r.user, now);
    Writing(h, db, now);
  }

  lemma EditUserOk(h: Handler, db: Db, now: int)
    requires Integrity(db) && CallerOk(db, h.request) && h.Start? && h.request.EditUser?
    ensures HandlerOk(Advance(h, db, now).db, Advance(h, db, now).handler)
  {
    hide Advance, Integrity, UsernameTaken, EmailTaken;
    Writing(h, db, now);
  }

  lemma FoundOk(h: Handler, db: Db, now: int)
    requires Integrity(db) && HandlerOk(db, h) && (h.Found? || h.FoundUser?)
    ensures HandlerOk(Advance(h, db, now).db, Advance(h, db, now).handler)
  {
    hide Integrity, AddUser, UpdateUser, AddArticle, UpdateArticle, AddComment, SortedNames, TagNames;
  }

  /** The row a read-back shows, or the mismatch when the row has been deleted in the meantime. */
  lemma ReadBackOk(h: Handler, db: Db, now: int)
    requires Integrity(db) && HandlerOk(db, h) && h.Wrote?
    ensures HandlerOk(Advance(h, db, now).db, Advance(h, db, now).handler)
  {
    hide Advance, SomeScan, Integrity, Abstract, TagNames, SortedNames;
    var sc, r := SomeScan(db.tables), h.request;
    if r.PostComment? {
      ReadingCommentBack(r, h.id, db, now);
    } else {
      ReadingBack(r, h.id, db, now);
      ArticlesAgree(db, sc, h.id, Some(r.user));
      AbstractRows(db);
    }
  }

  lemma LiveIdsAreInRange(db: Db, a: int)
    requires Integrity(db) && a in db.tables.articles
    ensures 1 <= a <= db.serials.articles
  {
  }

  lemma LocateOk(r: Request, db: Db, sc: Scan)
    requires Integrity(db) && CallerOk(db, r) && ArticleRequest(r) && ScanOf(sc, db.tables)
    ensures HandlerOk(db, Located(r, GetArticleIdBySlug(db.tables, sc.articles, r.slug)))
  {
    hide Integrity, CallerOk, ArticleAt, GetArticleIdBySlug, ScanOf, SortedNames;
    SlugFinds(db, sc, r.slug);
    var at := ArticleAt(db.tables, r.slug);
    if at.Some? {
      LiveIdsAreInRange(db, at.value);
    }
  }

  lemma LocateUserOk(r: Request, db: Db, sc: Scan)
    requires Integrity(db) && CallerOk(db, r) && (r.FollowUser? || r.UnfollowUser?) && ScanOf(sc, db.tables)
    ensures HandlerOk(db, LocatedUser(r, GetUserByUsername(db.tables, sc.users, r.username)))
  {
    NamedRows(db.tables, db.serials, sc.users, r.username, None);
  }

  lemma LogInOk(r: Request, db: Db, sc: Scan)
    requires Integrity(db) && r.LogIn? && ScanOf(sc, db.tables)
    ensures HandlerOk(db, LoggedIn(r, GetUserByEmail(db.tables, sc.users, r.email)))
  {
    EmailRows(db.tables, db.serials, sc.users, r.email);
  }

  lemma LookupOk(h: Handler, db: Db, now: int)
    requires Integrity(db) && CallerOk(db, h.request) && h.Start? && NextWrite(h).None?
    ensures HandlerOk(Advance(h, db, now).db, Advance(h, db, now).handler)
  {
    hide Integrity, Apply, SomeScan, Located, LocatedUser, LoggedIn, SortedNames;
    var sc, r := SomeScan(db.tables), h.request;
    if ArticleRequest(r) {
      LocateOk(r, db, sc);
    } else if r.FollowUser? || r.UnfollowUser? {
      LocateUserOk(r, db, sc);
    } else if r.LogIn? {
      LogInOk(r, db, sc);
    }
  }

  lemma HandlerCallerOk(db: Db, h: Handler)
    requires HandlerOk(db, h)
    ensures CallerOk(db, h.request)
  {
  }

  /** One step of any handler leaves the handler in a state that is accounted for. */
  lemma AdvanceKeepsHandler(h: Handler, db: Db, now: int)
    requires Integrity(db) && HandlerOk(db, h)
    ensures HandlerOk(Advance(h, db, now).db, Advance(h, db, now).handler)
  {
    hide Integrity, HandlerOk, CallerOk;
    HandlerCallerOk(db, h);
    match h
    case Start(r) =>
      match r {
        case RegisterUser(_, _, _) => RegisterOk(h, db, now);
        case CreateArticle(_, _, _, _, _) => CreateOk(h, db, now);
        case EditArticle(_, _, _, _, _) => EditOk(h, db, now);
        case PostComment(_, _, _) => CommentOk(h, db, now);
        case EditUser(_, _) => EditUserOk(h, db, now);
        case _ => LookupOk(h, db, now);
      }
    case Wrote(_, _) => ReadBackOk(h, db, now);
    case Finished(_, _) => assert Advance(h, db, now) == Turn(h, db);
    case _ => FoundOk(h, db, now);
  }

  // ---- the invariant over whole runs ----

  lemma OthersStayOk(db: Db, db': Db, handlers: seq<Handler>, i: nat, h: Handler, handlers': seq<Handler>)
    requires Integrity(db) && Evolves(db, db') && i < |handlers| && HandlerOk(db', h)
    requires handlers' == handlers[i := h]
    requires forall j | 0 <= j < |handlers| :: HandlerOk(db, handlers[j])
    ensures forall j | 0 <= j < |handlers'| :: HandlerOk(db', handlers'[j])
  {
    hide Integrity, Evolves, HandlerOk;
    forall j | 0 <= j < |handlers'| ensures HandlerOk(db', handlers'[j]) {
      if j != i {
        HandlerStaysOk(db, db', handlers[j]);
      }
    }
  }

  lemma IssuedTokensNameAccounts(db: Db, h: Handler)
    requires HandlerOk(db, h)
    ensures IssuedBy(h) <= db.tables.users.Keys
  {
  }

  lemma StepKeepsWorld(w: World, i: nat, now: int)
    requires WorldOk(w)
    ensures WorldOk(Next(w, Step(i, now)))
  {
    hide Advance, Integrity, Evolves, HandlerOk, SlugsFollowTitles;
    if i < |w.handlers| {
      var t := Advance(w.handlers[i], w.db, now);
      AdvanceKeepsTables(w.handlers[i], w.db, now);
      AdvanceKeepsHandler(w.handlers[i], w.db, now);
      OthersStayOk(w.db, t.db, w.handlers, i, t.handler, w.handlers[i := t.handler]);
      IssuedTokensNameAccounts(t.db, t.handler);
      AccountsStay(w.db, t.db);
    }
  }

  lemma AccountsStay(db: Db, db': Db)
    requires Evolves(db, db')
    ensures db.tables.users.Keys <= db'.tables.users.Keys
  {
    forall u: int | u in db.tables.users.Keys ensures u in db'.tables.users.Keys {
      assert u in db.tables.users;
    }
  }

  lemma NextKeepsWorld(w: World, e: Event)
    requires WorldOk(w)
    ensures WorldOk(Next(w, e))
  {
    match e
    case Arrive(r) =>
    case Step(i, now) => StepKeepsWorld(w, i, now);
  }

  /**
   * However requests arrive and their statements interleave: every table constraint holds, every slug comes from its
   * title, every issued token names an account, and every handler is in an accounted-for state.
   */
  lemma {:induction false} EveryWorldIsOk(w: World, events: seq<Event>)
    requires WorldOk(w)
    ensures WorldOk(RunWorld(w, events))
    decreases |events|
  {
    hide WorldOk, Next;
    if events != [] {
      NextKeepsWorld(w, events[0]);
      EveryWorldIsOk(Next(w, events[0]), events[1..]);
    }
  }
}

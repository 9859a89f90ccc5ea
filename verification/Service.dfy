/**
 * The handlers as they run: statements sent to the database object one after the other, each result looked at before
 * the next statement goes out.  Each is proved to do what its step machine does when nothing comes in between.
 */
module Service {
  import opened Prelude
  import opened Text
  import opened Schema
  import opened Mutators
  import opened Rows
  import opened Queries
  import opened AbstractStore
  import opened Refinement
  import opened Views
  import opened Counting
  import opened Listings
  import opened Database
  import opened Handlers
  import opened Interleaving
  import opened Outcomes
  import opened Solo
  import opened Showing
  import opened Effects

  // ---- results do not depend on the plan of the query ----

  lemma ArticlePlanIsIrrelevant(db: Db, sc: Scan, other: Scan, id: int, viewer: Option<int>)
    requires Integrity(db) && ScanOf(sc, db.tables) && ScanOf(other, db.tables)
    ensures GetArticle(db.tables, sc, id, viewer) == GetArticle(db.tables, other, id, viewer)
  {
    hide Integrity, GetArticle, Abstract;
    ArticlesAgree(db, sc, id, viewer);
    ArticlesAgree(db, other, id, viewer);
  }

  lemma CommentPlanIsIrrelevant(db: Db, sc: Scan, other: Scan, id: int, viewer: Option<int>)
    requires Integrity(db) && ScanOf(sc, db.tables) && ScanOf(other, db.tables)
    ensures GetComment(db.tables, sc, id, viewer) == GetComment(db.tables, other, id, viewer)
  {
    hide Integrity, Abstract, RemarkView;
    assert forall c :: c in sc.comments <==> c in other.comments;
    CommentsAgree(db, sc, sc.comments, id, viewer);
    CommentsAgree(db, other, other.comments, id, viewer);
  }

  // ---- the step machine, one statement at a time ----

  lemma WriteThenRead(h: Handler, db: Db, now: int)
    requires CanAdvance(h) && NextWrite(h).Some?
    requires
      var end := AfterWrite(h, Apply(NextWrite(h).value, now, db).reply);
      end.Wrote? && ReadsBack(end.request)
    ensures
      var r := Apply(NextWrite(h).value, now, db);
      var read := Advance(AfterWrite(h, r.reply), r.db, now);
      read.handler.Finished? && Complete(h, db, now) == Turn(read.handler, r.db)
  {
    hide Advance, Apply, AfterWrite, NextWrite, CanAdvance;
    var r := Apply(NextWrite(h).value, now, db);
    var end := AfterWrite(h, r.reply);
    Writing(h, db, now);
    CompleteUnfolds(h, db, now);
    WroteCanAdvance(end.request, end.id);
    CompleteUnfolds(end, r.db, now);
    ReadEnds(end.request, end.id, r.db, now);
    var read := Advance(end, r.db, now).handler;
    FinishedIsComplete(read.request, read.response, r.db, now);
  }

  lemma ReadEnds(r: Request, id: int, db: Db, now: int)
    requires ReadsBack(r)
    ensures Advance(Wrote(r, id), db, now).handler.Finished? && Advance(Wrote(r, id), db, now).db == db
  {
    hide Advance, GetArticle, GetComment;
    if r.PostComment? {
      ReadingCommentBack(r, id, db, now);
    } else {
      ReadingBack(r, id, db, now);
    }
  }

  /** What the handlers below leave and answer, by columns. */
  lemma AnswersByColumns(db: Db, r: Request, now: int)
    requires Integrity(db)
    ensures
      var t := Complete(Start(r), db, now);
      CallerOk(db, r) ==> t.handler.Finished? && ServedByColumns(r, now, db, t.handler.response, t.db)
  {
    hide Integrity, CallerOk, Complete, ServedByColumns;
    if CallerOk(db, r) {
      EveryRequestByColumns(db, r, now);
    }
  }

  // ---- reading back ----

  /** The last statement of a handler that answers with an article. */
  method ShowArticle(cluster: Database, r: Request, id: int, ghost now: int) returns (response: Response)
    requires cluster.Valid() && ShowsArticle(r)
    ensures Finished(r, response) == Advance(Wrote(r, id), cluster.Snapshot(), now).handler
  {
    hide Advance, Integrity, ParseArticle, GetArticle;
    var sc := cluster.Plan();
    var res := GetArticle(cluster.Snapshot().tables, sc, id, Some(r.user));
    ReadingBack(r, id, cluster.Snapshot(), now);
    ArticlePlanIsIrrelevant(cluster.Snapshot(), sc, SomeScan(cluster.Snapshot().tables), id, Some(r.user));
    if |res| != 1 {
      return RowCountMismatch;
    }
    return ArticleBody(ParseArticle(res[0]));
  }

  method ShowComment(cluster: Database, r: Request, id: int, ghost now: int) returns (response: Response)
    requires cluster.Valid() && r.PostComment?
    ensures Finished(r, response) == Advance(Wrote(r, id), cluster.Snapshot(), now).handler
  {
    hide Advance, Integrity, GetComment;
    var sc := cluster.Plan();
    var res := GetComment(cluster.Snapshot().tables, sc, id, Some(r.user));
    ReadingCommentBack(r, id, cluster.Snapshot(), now);
    CommentPlanIsIrrelevant(cluster.Snapshot(), sc, SomeScan(cluster.Snapshot().tables), id, Some(r.user));
    if |res| != 1 {
      return RowCountMismatch;
    }
    return CommentBody(res[0]);
  }

  // ---- articles ----

  method CreateArticle(cluster: Database, r: Request, now: int) returns (response: Response)
    requires cluster.Valid() && r.CreateArticle?
    modifies cluster
    ensures cluster.Valid()
    ensures Turn(Finished(r, response), cluster.Snapshot()) == Complete(Start(r), old(cluster.Snapshot()), now)
    ensures
      CallerOk(old(cluster.Snapshot()), r) ==>
        ServedByColumns(r, now, old(cluster.Snapshot()), response, cluster.Snapshot())
  {
    hide CallerOk, ServedByColumns;
    hide Advance, Integrity, Complete, Apply;
    ghost var before := cluster.Snapshot();
    AnswersByColumns(before, r, now);
    var slug := Slugify(r.title);
    var res := cluster.Execute(AddNewArticle(r.title, slug, r.description, r.body, r.user, r.tagList), now);
    if res.Error? {
      WriteEnds(Start(r), before, now);
      if res.error == UniqueViolation(UniqSlug) {
        return Taken("slug");
      }
      return Crashed(res.error);
    }
    if !res.Ids? || |res.ids| != 1 {
      WriteEnds(Start(r), before, now);
      return RowCountMismatch;
    }
    WriteThenRead(Start(r), before, now);
    response := ShowArticle(cluster, r, res.ids[0], now);
  }

  method EditArticle(cluster: Database, r: Request, now: int) returns (response: Response)
    requires cluster.Valid() && r.EditArticle?
    modifies cluster
    ensures cluster.Valid()
    ensures Turn(Finished(r, response), cluster.Snapshot()) == Complete(Start(r), old(cluster.Snapshot()), now)
    ensures
      CallerOk(old(cluster.Snapshot()), r) ==>
        ServedByColumns(r, now, old(cluster.Snapshot()), response, cluster.Snapshot())
  {
    hide CallerOk, ServedByColumns;
    hide Advance, Integrity, Complete, Apply;
    ghost var before := cluster.Snapshot();
    AnswersByColumns(before, r, now);
    var newSlug := match r.newTitle case Some(title) => Some(Slugify(title)) case None => None;
    var res := cluster.Execute(
      UpdateArticleBySlug(r.slug, r.user, ArticlePatch(r.newTitle, newSlug, r.newDescription, r.newBody)), now);
    if res.Error? {
      WriteEnds(Start(r), before, now);
      if res.error == UniqueViolation(UniqSlug) {
        return Taken("slug");
      }
      return Crashed(res.error);
    }
    if res == Ids([]) {
      WriteEnds(Start(r), before, now);
      return NotFound;
    }
    if !res.Ids? || |res.ids| != 1 {
      WriteEnds(Start(r), before, now);
      return RowCountMismatch;
    }
    WriteThenRead(Start(r), before, now);
    response := ShowArticle(cluster, r, res.ids[0], now);
  }

  /** The lookup by slug, as the database answers it. */
  method LookUpSlug(cluster: Database, slug: string) returns (ids: seq<int>)
    requires cluster.Valid()
    ensures
      ids == match ArticleAt(cluster.Snapshot().tables, slug)
             case None => []
             case Some(a) => [a]
  {
    var sc := cluster.Plan();
    ids := GetArticleIdBySlug(cluster.Snapshot().tables, sc.articles, slug);
    SlugFinds(cluster.Snapshot(), sc, slug);
  }

  lemma LookupEnds(db: Db, r: Request, now: int)
    requires Integrity(db) && ArticleRequest(r) && ArticleAt(db.tables, r.slug).None?
    ensures Complete(Start(r), db, now) == Turn(Finished(r, NotFound), db)
  {
    hide Advance, Integrity, ArticleAt;
    LookupFinds(db, r, now);
    CompleteUnfolds(Start(r), db, now);
    FinishedIsComplete(r, NotFound, db, now);
  }

  lemma LookupGoesOn(db: Db, r: Request, now: int)
    requires Integrity(db) && ArticleRequest(r) && ArticleAt(db.tables, r.slug).Some?
    ensures
      var h := Found(r, [ArticleAt(db.tables, r.slug).value]);
      Complete(Start(r), db, now) == Complete(h, db, now)
  {
    hide Advance, Integrity, ArticleAt;
    LookupFinds(db, r, now);
    CompleteUnfolds(Start(r), db, now);
  }

  method RemoveArticle(cluster: Database, r: Request, now: int) returns (response: Response)
    requires cluster.Valid() && r.RemoveArticle?
    modifies cluster
    ensures cluster.Valid()
    ensures Turn(Finished(r, response), cluster.Snapshot()) == Complete(Start(r), old(cluster.Snapshot()), now)
    ensures
      CallerOk(old(cluster.Snapshot()), r) ==>
        ServedByColumns(r, now, old(cluster.Snapshot()), response, cluster.Snapshot())
  {
    hide CallerOk, ServedByColumns;
    hide Advance, Integrity, Complete, Apply, ArticleAt;
    ghost var before := cluster.Snapshot();
    AnswersByColumns(before, r, now);
    var res := LookUpSlug(cluster, r.slug);
    if res == [] {
      LookupEnds(before, r, now);
      return NotFound;
    }
    LookupGoesOn(before, r, now);
    var done := cluster.Execute(DeleteArticleBySlug(r.slug, r.user), now);
    WriteEnds(Found(r, res), before, now);
    if done.Error? {
      return Crashed(done.error);
    }
    return Empty;
  }

  /** The one row of the lookup is taken only after the insert; the read-back then goes by that id. */
  method FavoriteArticle(cluster: Database, r: Request, now: int) returns (response: Response)
    requires cluster.Valid() && r.AddFavorite?
    modifies cluster
    ensures cluster.Valid()
    ensures Turn(Finished(r, response), cluster.Snapshot()) == Complete(Start(r), old(cluster.Snapshot()), now)
    ensures
      CallerOk(old(cluster.Snapshot()), r) ==>
        ServedByColumns(r, now, old(cluster.Snapshot()), response, cluster.Snapshot())
  {
    hide CallerOk, ServedByColumns;
    hide Advance, Integrity, Complete, Apply, ArticleAt;
    ghost var before := cluster.Snapshot();
    AnswersByColumns(before, r, now);
    var res := LookUpSlug(cluster, r.slug);
    if res == [] {
      LookupEnds(before, r, now);
      return NotFound;
    }
    LookupGoesOn(before, r, now);
    var done := cluster.Execute(Mutation.FavoriteArticle(r.slug, r.user), now);
    if done.Error? {
      WriteEnds(Found(r, res), before, now);
      return Crashed(done.error);
    }
    WriteThenRead(Found(r, res), before, now);
    response := ShowArticle(cluster, r, res[0], now);
  }

  method UnfavoriteArticle(cluster: Database, r: Request, now: int) returns (response: Response)
    requires cluster.Valid() && r.RemoveFavorite?
    modifies cluster
    ensures cluster.Valid()
    ensures Turn(Finished(r, response), cluster.Snapshot()) == Complete(Start(r), old(cluster.Snapshot()), now)
    ensures
      CallerOk(old(cluster.Snapshot()), r) ==>
        ServedByColumns(r, now, old(cluster.Snapshot()), response, cluster.Snapshot())
  {
    hide CallerOk, ServedByColumns;
    hide Advance, Integrity, Complete, Apply, ArticleAt;
    ghost var before := cluster.Snapshot();
    AnswersByColumns(before, r, now);
    var res := LookUpSlug(cluster, r.slug);
    if res == [] {
      LookupEnds(before, r, now);
      return NotFound;
    }
    LookupGoesOn(before, r, now);
    var done := cluster.Execute(Mutation.UnfavoriteArticle(r.slug, r.user), now);
    if done.Error? {
      WriteEnds(Found(r, res), before, now);
      return Crashed(done.error);
    }
    WriteThenRead(Found(r, res), before, now);
    response := ShowArticle(cluster, r, res[0], now);
  }

  // ---- comments ----

  method PostComment(cluster: Database, r: Request, now: int) returns (response: Response)
    requires cluster.Valid() && r.PostComment?
    modifies cluster
    ensures cluster.Valid()
    ensures Turn(Finished(r, response), cluster.Snapshot()) == Complete(Start(r), old(cluster.Snapshot()), now)
    ensures
      CallerOk(old(cluster.Snapshot()), r) ==>
        ServedByColumns(r, now, old(cluster.Snapshot()), response, cluster.Snapshot())
  {
    hide CallerOk, ServedByColumns;
    hide Advance, Integrity, Complete, Apply;
    ghost var before := cluster.Snapshot();
    AnswersByColumns(before, r, now);
    var res := cluster.Execute(AddCommentToArticle(r.slug, r.body, r.user), now);
    if res.Error? {
      WriteEnds(Start(r), before, now);
      return Crashed(res.error);
    }
    if !res.Ids? || |res.ids| != 1 {
      WriteEnds(Start(r), before, now);
      return RowCountMismatch;
    }
    WriteThenRead(Start(r), before, now);
    response := ShowComment(cluster, r, res.ids[0], now);
  }

  method DeleteComment(cluster: Database, r: Request, now: int) returns (response: Response)
    requires cluster.Valid() && r.RemoveComment?
    modifies cluster
    ensures cluster.Valid()
    ensures Turn(Finished(r, response), cluster.Snapshot()) == Complete(Start(r), old(cluster.Snapshot()), now)
    ensures
      CallerOk(old(cluster.Snapshot()), r) ==>
        ServedByColumns(r, now, old(cluster.Snapshot()), response, cluster.Snapshot())
  {
    hide CallerOk, ServedByColumns;
    hide Advance, Integrity, Complete, Apply, CommentMatches;
    ghost var before := cluster.Snapshot();
    AnswersByColumns(before, r, now);
    var res := cluster.IsCommentExist(r.comment, r.slug, r.user);
    CommentLookup(before, r, now);
    CompleteUnfolds(Start(r), before, now);
    if !res {
      FinishedIsComplete(r, NotFound, before, now);
      return NotFound;
    }
    var done := cluster.Execute(Mutation.DeleteComment(r.comment, r.slug, r.user), now);
    WriteEnds(Found(r, []), before, now);
    if done.Error? {
      return Crashed(done.error);
    }
    return Empty;
  }

  // ---- profiles ----

  method LookUpName(cluster: Database, name: string) returns (rows: seq<(int, User)>)
    requires cluster.Valid()
    ensures
      rows == match UserNamed(cluster.users, name)
              case None => []
              case Some(u) => [(u, cluster.Snapshot().tables.users[u])]
  {
    var sc := cluster.Plan();
    rows := GetUserByUsername(cluster.Snapshot().tables, sc.users, name);
    NameFinds(cluster.Snapshot(), sc, name);
  }

  method ChangeFollowing(cluster: Database, r: Request, now: int) returns (response: Response)
    requires cluster.Valid() && (r.FollowUser? || r.UnfollowUser?)
    modifies cluster
    ensures cluster.Valid()
    ensures Turn(Finished(r, response), cluster.Snapshot()) == Complete(Start(r), old(cluster.Snapshot()), now)
    ensures
      CallerOk(old(cluster.Snapshot()), r) ==>
        ServedByColumns(r, now, old(cluster.Snapshot()), response, cluster.Snapshot())
  {
    hide CallerOk, ServedByColumns;
    hide Advance, Integrity, Complete, Apply, UserNamed;
    ghost var before := cluster.Snapshot();
    AnswersByColumns(before, r, now);
    var res := LookUpName(cluster, r.username);
    UserLookup(before, r, now);
    CompleteUnfolds(Start(r), before, now);
    if res == [] {
      FinishedIsComplete(r, NotFound, before, now);
      return NotFound;
    }
    assert |res| == 1;
    var id, user := res[0].0, res[0].1;
    var done := cluster.Execute(if r.FollowUser? then Follow(r.user, id) else Unfollow(r.user, id), now);
    WriteEnds(FoundUser(r, id, user), before, now);
    if done.Error? {
      return Crashed(done.error);
    }
    return ProfileBody(Profile(user.username, user.bio, user.image, r.FollowUser?));
  }

  // ---- accounts ----

  method Register(cluster: Database, r: Request, now: int) returns (response: Response)
    requires cluster.Valid() && r.RegisterUser?
    modifies cluster
    ensures cluster.Valid()
    ensures Turn(Finished(r, response), cluster.Snapshot()) == Complete(Start(r), old(cluster.Snapshot()), now)
    ensures
      CallerOk(old(cluster.Snapshot()), r) ==>
        ServedByColumns(r, now, old(cluster.Snapshot()), response, cluster.Snapshot())
  {
    hide CallerOk, ServedByColumns;
    hide Advance, Integrity, Complete, Apply;
    ghost var before := cluster.Snapshot();
    AnswersByColumns(before, r, now);
    var res := cluster.Execute(AddNewUser(r.username, r.email, r.hash), now);
    WriteEnds(Start(r), before, now);
    if res.Error? {
      if res.error == UniqueViolation(UniqUsername) {
        return Taken("username");
      } else if res.error == UniqueViolation(UniqEmail) {
        return Taken("email");
      }
      return Crashed(res.error);
    }
    if !res.Ids? || |res.ids| != 1 {
      return RowCountMismatch;
    }
    return TokenFor(res.ids[0], Account(r.email, r.username, None, None));
  }

  method EditUser(cluster: Database, r: Request, now: int) returns (response: Response)
    requires cluster.Valid() && r.EditUser?
    modifies cluster
    ensures cluster.Valid()
    ensures Turn(Finished(r, response), cluster.Snapshot()) == Complete(Start(r), old(cluster.Snapshot()), now)
    ensures
      CallerOk(old(cluster.Snapshot()), r) ==>
        ServedByColumns(r, now, old(cluster.Snapshot()), response, cluster.Snapshot())
  {
    hide CallerOk, ServedByColumns;
    hide Advance, Integrity, Complete, Apply;
    ghost var before := cluster.Snapshot();
    AnswersByColumns(before, r, now);
    var res := cluster.Execute(UpdateUserById(r.user, r.userPatch), now);
    WriteEnds(Start(r), before, now);
    if res.Error? {
      return Crashed(res.error);
    }
    if res == UserRows([]) {
      return NotFound;
    }
    if !res.UserRows? || |res.rows| != 1 {
      return RowCountMismatch;
    }
    return UserBody(AccountOf(res.rows[0].1));
  }

  method LogIn(cluster: Database, r: Request, ghost now: int) returns (response: Response)
    requires cluster.Valid() && r.LogIn?
    ensures Turn(Finished(r, response), cluster.Snapshot()) == Complete(Start(r), cluster.Snapshot(), now)
    ensures ServedByColumns(r, now, cluster.Snapshot(), response, cluster.Snapshot())
  {
    hide ServedByColumns;
    AnswersByColumns(cluster.Snapshot(), r, now);
    hide Advance, Integrity, Complete, AccountAt;
    var sc := cluster.Plan();
    var res := GetUserByEmail(cluster.Snapshot().tables, sc.users, r.email);
    EmailFinds(cluster.Snapshot(), sc, r.email);
    EmailLookup(cluster.Snapshot(), r, now);
    CompleteUnfolds(Start(r), cluster.Snapshot(), now);
    ghost var end := Advance(Start(r), cluster.Snapshot(), now).handler;
    FinishedIsComplete(r, end.response, cluster.Snapshot(), now);
    if res == [] {
      return Forbidden("email");
    }
    assert |res| == 1;
    var id, user := res[0].0, res[0].1;
    if !PasswordMatches(r.password, user.hash) {
      return Forbidden("password");
    }
    return TokenFor(id, AccountOf(user));
  }

  // ---- any request ----

  /** Served alone, a request of a caller who has an account is one operation on the abstract store. */
  method Handle(cluster: Database, r: Request, now: int) returns (response: Response)
    requires cluster.Valid()
    modifies cluster
    ensures cluster.Valid()
    ensures Turn(Finished(r, response), cluster.Snapshot()) == Complete(Start(r), old(cluster.Snapshot()), now)
    ensures
      CallerOk(old(cluster.Snapshot()), r) ==>
        && HasAuthors(Abstract(old(cluster.Snapshot())))
        && Served(response, Abstract(cluster.Snapshot())) == Serve(Abstract(old(cluster.Snapshot())), r, now)
        && response != RowCountMismatch
    ensures
      CallerOk(old(cluster.Snapshot()), r) ==>
        ServedByColumns(r, now, old(cluster.Snapshot()), response, cluster.Snapshot())
  {
    hide ServedByColumns;
    hide Integrity, Complete, CallerOk, Abstract, Serve, HasAuthors;
    if CallerOk(cluster.Snapshot(), r) {
      EveryRequestIsAtomic(cluster.Snapshot(), r, now);
      EverySingleRowIsOne(cluster.Snapshot(), r, now);
    }
    match r
    case RegisterUser(_, _, _) => response := Register(cluster, r, now);
    case LogIn(_, _) => response := LogIn(cluster, r, now);
    case EditUser(_, _) => response := EditUser(cluster, r, now);
    case CreateArticle(_, _, _, _, _) => response := CreateArticle(cluster, r, now);
    case EditArticle(_, _, _, _, _) => response := EditArticle(cluster, r, now);
    case RemoveArticle(_, _) => response := RemoveArticle(cluster, r, now);
    case PostComment(_, _, _) => response := PostComment(cluster, r, now);
    case RemoveComment(_, _, _) => response := DeleteComment(cluster, r, now);
    case AddFavorite(_, _) => response := FavoriteArticle(cluster, r, now);
    case RemoveFavorite(_, _) => response := UnfavoriteArticle(cluster, r, now);
    case FollowUser(_, _) => response := ChangeFollowing(cluster, r, now);
    case UnfollowUser(_, _) => response := ChangeFollowing(cluster, r, now);
  }

  // ---- requests that only read ----

  /** dto::Article::Parse, field by field: the row can be had back from its id when its count fits in 32 bits. */
  method Parse(model: ArticleView) returns (article: ArticleDto)
    ensures -MAX_INT32 - 1 <= model.favoritesCount <= MAX_INT32 ==> Unparsed(article, model.articleId) == model
    ensures article == ParseArticle(model)
  {
    article := ArticleDto(model.slug, model.title, model.description, model.body, [], 0, 0, 0, false,
                          Profile("", None, None, false));
    article := article.(tagList := model.tagList, createdAt := model.createdAt, updatedAt := model.updatedAt);
    article := article.(favoritesCount := NarrowToInt32(model.favoritesCount), favorited := model.favorited);
    article := article.(author := model.author);
  }

  function Parsed(rows: seq<ArticleView>): seq<ArticleDto> {
    seq(|rows|, i requires 0 <= i < |rows| => ParseArticle(rows[i]))
  }

  function ParsedPage(page: Page<ArticleView>): Page<ArticleDto> {
    match page
    case Page(rows) => Page(Parsed(rows))
    case BadBounds => BadBounds
  }

  method BuildList(rows: seq<ArticleView>) returns (builder: seq<ArticleDto>)
    ensures builder == Parsed(rows)
  {
    builder := [];
    for i := 0 to |rows|
      invariant builder == Parsed(rows[..i])
    {
      var article := Parse(rows[i]);
      builder := builder + [article];
      assert rows[..i + 1] == rows[..i] + [rows[i]];
    }
    assert rows[..|rows|] == rows;
  }

  /** What the caller gets: some listing of the matching articles, newest first, sliced and parsed. */
  method ListArticles(cluster: Database, viewer: Option<int>, f: Filters, limit: Option<int>, offset: Option<int>)
      returns (answer: Page<ArticleDto>)
    requires cluster.Valid()
    ensures HasAuthors(Abstract(cluster.Snapshot()))
    ensures
      exists full ::
        && IsListingOf(full, Listed(Abstract(cluster.Snapshot()), f, viewer))
        && answer == ParsedPage(Window(full, Some(limit.GetOr(20)), offset.GetOr(0)))
    ensures IsListPage(cluster.Snapshot().tables, f, viewer, limit, offset, answer)
  {
    hide Integrity, Abstract, IsListingOf, Listed, HasAuthors, GetArticles, ParseArticle, IsListPage, Window;
    var sc := cluster.Plan();
    ListIsFilterSortSlice(cluster.Snapshot(), sc, f, viewer, limit, offset);
    var res := GetArticles(cluster.Snapshot().tables, sc, f, viewer, limit, offset);
    ghost var full :|
      && IsListingOf(full, Listed(Abstract(cluster.Snapshot()), f, viewer))
      && res == Window(full, Some(limit.GetOr(20)), offset.GetOr(0));
    ListPageByColumns(cluster.Snapshot(), f, viewer, limit, offset, full, ParsedPage(res));
    if res.BadBounds? {
      return BadBounds;
    }
    var builder := BuildList(res.rows);
    return Page(builder);
  }

  method ReadFeed(cluster: Database, user: int, limit: Option<int>, offset: Option<int>)
      returns (answer: Page<ArticleDto>)
    requires cluster.Valid()
    ensures HasAuthors(Abstract(cluster.Snapshot()))
    ensures
      exists full ::
        && IsListingOf(full, Feed(Abstract(cluster.Snapshot()), user, |cluster.favorites|))
        && answer == ParsedPage(Window(full, limit, offset.GetOr(0)))
    ensures IsFeedPage(cluster.Snapshot().tables, user, limit, offset, answer)
  {
    hide Integrity, Abstract, IsListingOf, Feed, HasAuthors, GetFeed, ParseArticle, IsFeedPage, Window;
    var sc := cluster.Plan();
    FeedIsFilterSortSlice(cluster.Snapshot(), sc, user, limit, offset);
    var res := GetFeed(cluster.Snapshot().tables, sc, user, limit, offset);
    ghost var full :|
      && IsListingOf(full, Feed(Abstract(cluster.Snapshot()), user, |cluster.favorites|))
      && res == Window(full, limit, offset.GetOr(0));
    FeedPageByColumns(cluster.Snapshot(), user, limit, offset, full, ParsedPage(res));
    if res.BadBounds? {
      return BadBounds;
    }
    var builder := BuildList(res.rows);
    return Page(builder);
  }

  method ReadArticle(cluster: Database, slug: string, viewer: Option<int>) returns (response: Response)
    requires cluster.Valid()
    ensures HasAuthors(Abstract(cluster.Snapshot()))
    ensures
      response == match PostAt(Abstract(cluster.Snapshot()), slug)
                  case None => NotFound
                  case Some(a) => ArticleBody(ParseArticle(ViewOf(Abstract(cluster.Snapshot()), a, viewer)))
    ensures
      !SlugUsed(cluster.Snapshot().tables, slug) ==> response == NotFound
    ensures
      forall a | a in cluster.articles && cluster.articles[a].slug == slug ::
        response.ArticleBody? && ShowsPage(cluster.Snapshot().tables, a, viewer, response.article)
  {
    SlugPageByColumns(cluster.Snapshot(), slug, viewer);
    hide Integrity, Abstract, PostAt, GetArticleBySlug, ViewOf, ParseArticle, SlugUsed, ShowsPage;
    var sc := cluster.Plan();
    var res := GetArticleBySlug(cluster.Snapshot().tables, sc, slug, viewer);
    ArticlesBySlugAgree(cluster.Snapshot(), sc, slug, viewer);
    if res == [] {
      return NotFound;
    }
    assert |res| == 1;
    var article := Parse(res[0]);
    return ArticleBody(article);
  }

  /** The comments come in no particular order, so what is promised is which ones, and each once. */
  method ReadComments(cluster: Database, slug: string, viewer: Option<int>) returns (builder: seq<CommentView>)
    requires cluster.Valid()
    ensures NoDuplicates(builder)
    ensures
      forall v :: v in builder <==>
        var s := Abstract(cluster.Snapshot());
        match PostAt(s, slug)
        case None => false
        case Some(a) => v.commentId in s.posts[a].remarks && s.posts[a].remarks[v.commentId].author in s.users
                        && v == RemarkView(s, a, v.commentId, viewer)
    ensures ShowsCommentsAt(cluster.Snapshot().tables, slug, viewer, builder)
  {
    hide Integrity, Abstract, PostAt, GetCommentsFromArticle, RemarkView, ShowsCommentsAt;
    var sc := cluster.Plan();
    var comments := GetCommentsFromArticle(cluster.Snapshot().tables, sc, slug, viewer);
    forall v {
      PageCommentsAgree(cluster.Snapshot(), sc, slug, viewer, v);
    }
    CommentsAtByColumns(cluster.Snapshot(), slug, viewer, comments);
    builder := [];
    for i := 0 to |comments|
      invariant builder == comments[..i]
    {
      builder := builder + [comments[i]];
    }
    assert builder == comments;
    PageCommentsDiffer(cluster.Snapshot(), sc, slug, viewer);
  }

  method ReadProfile(cluster: Database, name: string, viewer: Option<int>) returns (response: Response)
    requires cluster.Valid()
    ensures
      response == match UserNamed(cluster.users, name)
                  case None => NotFound
                  case Some(u) => ProfileBody(ProfileOf(Abstract(cluster.Snapshot()), u, viewer))
    ensures
      && ((forall u | u in cluster.users :: FoldCase(cluster.users[u].username) != FoldCase(name)) ==>
            response == NotFound)
      && (forall u | u in cluster.users && FoldCase(cluster.users[u].username) == FoldCase(name) ::
            response.ProfileBody? && ShowsProfile(cluster.Snapshot().tables, u, viewer, response.profile))
  {
    NamesByColumns(cluster.Snapshot(), name);
    forall u | u in cluster.users {
      ProfileByColumns(cluster.Snapshot(), u, viewer);
    }
    hide Integrity, Abstract, GetProfileByUsername, UserNamed, ProfileOf, ShowsProfile;
    var sc := cluster.Plan();
    var res := GetProfileByUsername(cluster.Snapshot().tables, sc.users, name, viewer);
    NamedProfilesAgree(cluster.Snapshot(), sc, name, viewer);
    AbstractParts(cluster.Snapshot(), Abstract(cluster.Snapshot()));
    if res == [] {
      return NotFound;
    }
    assert |res| == 1;
    return ProfileBody(res[0]);
  }
}

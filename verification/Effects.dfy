/**
 * What each request does to the columns of the tables and which columns its answer shows: first when it runs alone,
 * then for the steps of the interleaved model.
 */
module Effects {
  import opened Prelude
  import opened Text
  import opened Schema
  import opened Mutators
  import opened Queries
  import opened IntegrityProofs
  import opened AbstractStore
  import opened Refinement
  import opened Views
  import opened Listings
  import opened Handlers
  import opened Interleaving
  import opened Outcomes
  import opened Solo
  import opened Columns
  import opened Showing

  ghost predicate ShowsAccount(row: User, account: Account) {
    && account.email == row.email
    && account.username == row.username
    && account.bio == row.bio
    && account.image == row.image
  }

  // ---- what is to be shown and stored ----

  ghost predicate Registers(db: Db, r: Request, response: Response, db': Db)
    requires r.RegisterUser?
  {
    match response
    case TokenFor(id, account) =>
      && InsertsUser(db, r.username, r.email, r.hash, Result(db', Ids([id])))
      && account.email == r.email && account.username == r.username && account.bio == None && account.image == None
    case Taken(field) =>
      || (field == "username"
          && InsertsUser(db, r.username, r.email, r.hash, Result(db', Error(UniqueViolation(UniqUsername)))))
      || (field == "email"
          && InsertsUser(db, r.username, r.email, r.hash, Result(db', Error(UniqueViolation(UniqEmail)))))
    case Crashed(e) =>
      !e.UniqueViolation? && InsertsUser(db, r.username, r.email, r.hash, Result(db', Error(e)))
    case _ => false
  }

  ghost predicate LogsIn(db: Db, r: Request, response: Response, db': Db)
    requires r.LogIn?
  {
    var users := db.tables.users;
    && db' == db
    && ((forall u | u in users :: users[u].email != r.email) ==> response == Forbidden("email"))
    && (forall u | u in users && users[u].email == r.email ::
          if PasswordMatches(r.password, users[u].hash)
          then response.TokenFor? && response.id == u && ShowsAccount(users[u], response.account)
          else response == Forbidden("password"))
  }

  ghost predicate EditsAccount(db: Db, r: Request, response: Response, db': Db)
    requires r.EditUser?
  {
    match response
    case UserBody(account) =>
      && r.user in db.tables.users && r.user in db'.tables.users
      && UpdatesUser(db, r.user, r.userPatch, Result(db', UserRows([(r.user, db'.tables.users[r.user])])))
      && ShowsAccount(db'.tables.users[r.user], account)
    case NotFound => r.user !in db.tables.users && db' == db
    case Crashed(e) => UpdatesUser(db, r.user, r.userPatch, Result(db', Error(e)))
    case _ => false
  }

  ghost predicate CreatesArticle(db: Db, r: Request, now: int, reply: Reply, db': Db)
    requires r.CreateArticle?
  {
    InsertsArticle(db, r.title, Slugify(r.title), r.description, r.body, r.user, r.tagList, now, Result(db', reply))
  }

  ghost predicate Creates(db: Db, r: Request, now: int, response: Response, db': Db)
    requires r.CreateArticle?
  {
    match response
    case ArticleBody(d) =>
      && CreatesArticle(db, r, now, Ids([db.serials.articles + 1]), db')
      && ShowsPage(db'.tables, db.serials.articles + 1, Some(r.user), d)
      && d.title == r.title && d.description == r.description && d.body == r.body
    case Taken(field) => field == "slug" && CreatesArticle(db, r, now, Error(UniqueViolation(UniqSlug)), db')
    case Crashed(e) => !e.UniqueViolation? && CreatesArticle(db, r, now, Error(e), db')
    case _ => false
  }

  /** A new title brings its slug along; what is absent from the request is not sent. */
  function SentPatch(r: Request): ArticlePatch
    requires r.EditArticle?
  {
    ArticlePatch(title := r.newTitle, slug := if r.newTitle.Some? then Some(Slugify(r.newTitle.value)) else None,
                 description := r.newDescription, body := r.newBody)
  }

  ghost predicate Edits(db: Db, r: Request, now: int, response: Response, db': Db)
    requires r.EditArticle?
  {
    match response
    case ArticleBody(d) =>
      exists a :: && UpdatesArticle(db, r.slug, r.user, SentPatch(r), now, Result(db', Ids([a])))
                  && ShowsPage(db'.tables, a, Some(r.user), d)
    case NotFound => UpdatesArticle(db, r.slug, r.user, SentPatch(r), now, Result(db', Ids([])))
    case Taken(field) =>
      && field == "slug"
      && UpdatesArticle(db, r.slug, r.user, SentPatch(r), now, Result(db', Error(UniqueViolation(UniqSlug))))
    case Crashed(e) =>
      !e.UniqueViolation? && UpdatesArticle(db, r.slug, r.user, SentPatch(r), now, Result(db', Error(e)))
    case _ => false
  }

  ghost predicate SlugUsed(t: Tables, slug: string) {
    exists a :: a in t.articles && t.articles[a].slug == slug
  }

  ghost predicate Deletes(db: Db, r: Request, response: Response, db': Db)
    requires r.RemoveArticle?
  {
    match response
    case NotFound => !SlugUsed(db.tables, r.slug) && db' == db
    case Empty => SlugUsed(db.tables, r.slug) && DeletesArticle(db, r.slug, r.user, Result(db', Void))
    case Crashed(e) => DeletesArticle(db, r.slug, r.user, Result(db', Error(e)))
    case _ => false
  }

  ghost predicate Comments(db: Db, r: Request, now: int, response: Response, db': Db)
    requires r.PostComment?
  {
    match response
    case CommentBody(v) =>
      && InsertsComment(db, r.slug, r.body, r.user, now, Result(db', Ids([v.commentId])))
      && ShowsComment(db'.tables, v.commentId, Some(r.user), v)
      && v.body == r.body
    case Crashed(e) => InsertsComment(db, r.slug, r.body, r.user, now, Result(db', Error(e)))
    case _ => false
  }

  ghost predicate DropsComment(db: Db, r: Request, response: Response, db': Db)
    requires r.RemoveComment?
  {
    var t := db.tables;
    if && r.comment in t.comments && t.comments[r.comment].author == r.user
       && t.comments[r.comment].article in t.articles && t.articles[t.comments[r.comment].article].slug == r.slug
    then
      response == Empty && db' == db.(tables := t.(comments := t.comments - {r.comment}))
    else response == NotFound && db' == db
  }

  ghost predicate Favors(db: Db, r: Request, response: Response, db': Db)
    requires r.AddFavorite? || r.RemoveFavorite?
  {
    var t, t' := db.tables, db'.tables;
    match response
    case NotFound => !SlugUsed(t, r.slug) && db' == db
    case ArticleBody(d) =>
      exists a ::
        && a in t.articles && t.articles[a].slug == r.slug
        && ShowsPage(t', a, Some(r.user), d)
        && if r.AddFavorite? then
             (r.user, a) !in t.favorites && db' == db.(tables := t.(favorites := t.favorites + {(r.user, a)}))
           else db' == db.(tables := t.(favorites := t.favorites - {(r.user, a)}))
    case Crashed(e) =>
      && r.AddFavorite? && e == UniqueViolation(PkFavorites) && db' == db
      && exists a :: a in t.articles && t.articles[a].slug == r.slug && (r.user, a) in t.favorites
    case _ => false
  }

  ghost predicate Follows(db: Db, r: Request, response: Response, db': Db)
    requires r.FollowUser? || r.UnfollowUser?
  {
    var t, t' := db.tables, db'.tables;
    && ((forall u | u in t.users :: FoldCase(t.users[u].username) != FoldCase(r.username)) ==>
          response == NotFound && db' == db)
    && (forall u | u in t.users && FoldCase(t.users[u].username) == FoldCase(r.username) ::
          if r.FollowUser? && (r.user, u) in t.followers then
            response == Crashed(UniqueViolation(PkFollowers)) && db' == db
          else
            && response.ProfileBody? && ShowsProfile(t', u, Some(r.user), response.profile)
            && if r.FollowUser? then db' == db.(tables := t.(followers := t.followers + {(r.user, u)}))
               else db' == db.(tables := t.(followers := t.followers - {(r.user, u)})))
  }

  ghost predicate ServedByColumns(r: Request, now: int, db: Db, response: Response, db': Db) {
    match r
    case RegisterUser(_, _, _) => Registers(db, r, response, db')
    case LogIn(_, _) => LogsIn(db, r, response, db')
    case EditUser(_, _) => EditsAccount(db, r, response, db')
    case CreateArticle(_, _, _, _, _) => Creates(db, r, now, response, db')
    case EditArticle(_, _, _, _, _) => Edits(db, r, now, response, db')
    case RemoveArticle(_, _) => Deletes(db, r, response, db')
    case PostComment(_, _, _) => Comments(db, r, now, response, db')
    case RemoveComment(_, _, _) => DropsComment(db, r, response, db')
    case AddFavorite(_, _) => Favors(db, r, response, db')
    case RemoveFavorite(_, _) => Favors(db, r, response, db')
    case FollowUser(_, _) => Follows(db, r, response, db')
    case UnfollowUser(_, _) => Follows(db, r, response, db')
  }

  // ---- each request, alone ----

  ghost predicate AloneByColumns(db: Db, r: Request, now: int) {
    var t := Complete(Start(r), db, now);
    t.handler.Finished? && ServedByColumns(r, now, db, t.handler.response, t.db)
  }

  lemma RegistrationByColumns(db: Db, r: Request, now: int)
    requires Integrity(db) && r.RegisterUser?
    ensures AloneByColumns(db, r, now)
  {
    hide LogsIn, EditsAccount, Creates, Edits, Deletes, Comments, DropsComment, Favors, Follows;
    hide Integrity, Complete, AddUser, InsertsUser;
    AddUserByColumns(db, r.username, r.email, r.hash);
    RegisterReply(db, r.username, r.email, r.hash);
    var reply := AddUser(db, r.username, r.email, r.hash).reply;
    assert reply.Ids? ==> reply == Ids([reply.ids[0]]);
    WriteEnds(Start(r), db, now);
  }

  lemma EmailsByColumns(db: Db, email: string)
    requires Integrity(db)
    ensures
      var users, at := db.tables.users, AccountAt(db.tables.users, email);
      forall u :: u in users && users[u].email == email <==> at == Some(u)
  {
    IntegrityParts(db);
    hide Integrity, ArticlesOk, TagsOk, LinksOk, CommentsOk;
    var users, at := db.tables.users, AccountAt(db.tables.users, email);
    forall u | u in users && users[u].email == email ensures at == Some(u) {
      assert users[at.value].email == users[u].email;
    }
  }

  lemma LogInByColumns(db: Db, r: Request, now: int)
    requires Integrity(db) && r.LogIn?
    ensures AloneByColumns(db, r, now)
  {
    hide Registers, EditsAccount, Creates, Edits, Deletes, Comments, DropsComment, Favors, Follows;
    EmailsByColumns(db, r.email);
    hide Integrity, Complete, Advance, AccountAt;
    EmailLookup(db, r, now);
    CompleteUnfolds(Start(r), db, now);
    FinishedIsComplete(r, Advance(Start(r), db, now).handler.response, db, now);
  }

  lemma AccountByColumns(db: Db, r: Request, now: int)
    requires r.EditUser?
    ensures AloneByColumns(db, r, now)
  {
    hide Registers, LogsIn, Creates, Edits, Deletes, Comments, DropsComment, Favors, Follows;
    hide Complete, UsernameTaken, EmailTaken, UserTooLong, UpdatesUser;
    UpdateUserByColumns(db, r.user, r.userPatch);
    WriteEnds(Start(r), db, now);
  }

  lemma CreateByColumns(db: Db, r: Request, now: int)
    requires Integrity(db) && CallerOk(db, r) && r.CreateArticle?
    ensures AloneByColumns(db, r, now)
  {
    hide Registers, LogsIn, EditsAccount, Edits, Deletes, Comments, DropsComment, Favors, Follows;
    hide Integrity, Complete, AddArticle, Abstract, ViewOf, ParseArticle, ShowsPage;
    var m, h := CreateStatement(r), Start(r);
    AddArticleByColumns(db, m, now);
    ApplyKeepsIntegrity(m, now, db);
    CreateReply(db, m, now);
    var c := Apply(m, now, db);
    if c.reply.Error? {
      WriteEnds(h, db, now);
    } else {
      WriteThenPage(h, db, now);
      PageByColumns(c.db, c.reply.ids[0], Some(r.user));
      PageText(c.db.tables, c.reply.ids[0], Some(r.user),
               ParseArticle(ViewOf(Abstract(c.db), c.reply.ids[0], Some(r.user))));
    }
  }

  lemma PageText(t: Tables, a: int, viewer: Option<int>, d: ArticleDto)
    requires ShowsPage(t, a, viewer, d)
    ensures
      && a in t.articles && d.title == t.articles[a].title && d.description == t.articles[a].description
      && d.body == t.articles[a].body
  {
  }

  lemma EditByColumns(db: Db, r: Request, now: int)
    requires Integrity(db) && CallerOk(db, r) && r.EditArticle?
    ensures AloneByColumns(db, r, now)
  {
    hide Registers, LogsIn, EditsAccount, Creates, Deletes, Comments, DropsComment, Favors, Follows;
    hide Integrity, Complete, UpdateArticle, Abstract, ViewOf, ParseArticle, ShowsPage, UpdatesArticle;
    var m, h := EditStatement(r), Start(r);
    assert m.articlePatch == SentPatch(r);
    UpdateArticleByColumns(db, r.slug, r.user, m.articlePatch, now);
    ApplyKeepsIntegrity(m, now, db);
    EditReply(db, r.slug, r.user, m.articlePatch, now);
    var c := Apply(m, now, db);
    if c.reply.Ids? && c.reply.ids != [] {
      var a := c.reply.ids[0];
      assert c.reply == Ids([a]);
      WriteThenPage(h, db, now);
      PageByColumns(c.db, a, Some(r.user));
    } else {
      WriteEnds(h, db, now);
    }
  }

  lemma SlugUsedAt(t: Tables, slug: string)
    ensures SlugUsed(t, slug) <==> ArticleAt(t, slug).Some?
  {
  }

  lemma DeleteByColumns(db: Db, r: Request, now: int)
    requires Integrity(db) && r.RemoveArticle?
    ensures AloneByColumns(db, r, now)
  {
    hide Registers, LogsIn, EditsAccount, Creates, Edits, Comments, DropsComment, Favors, Follows;
    hide Integrity, Complete, Advance, ArticleAt, DeleteArticle, DeletesArticle, SlugUsed;
    SlugUsedAt(db.tables, r.slug);
    LookupFinds(db, r, now);
    CompleteUnfolds(Start(r), db, now);
    var at := ArticleAt(db.tables, r.slug);
    if at.None? {
      FinishedIsComplete(r, NotFound, db, now);
    } else {
      DeleteArticleByColumns(db, r.slug, r.user);
      DeleteReplies(db, r.slug, r.user);
      WriteEnds(Found(r, [at.value]), db, now);
    }
  }

  lemma DeleteReplies(db: Db, slug: string, user: int)
    ensures DeleteArticle(db, slug, user).reply in {Void, Error(ForeignKeyViolation)}
  {
  }

  lemma CommentByColumnsAlone(db: Db, r: Request, now: int)
    requires Integrity(db) && CallerOk(db, r) && r.PostComment?
    ensures AloneByColumns(db, r, now)
  {
    hide Registers, LogsIn, EditsAccount, Creates, Edits, Deletes, DropsComment, Favors, Follows;
    hide Integrity, Complete, Advance, AddComment, Abstract, RemarkView, InsertsComment;
    var h, m := Start(r), AddCommentToArticle(r.slug, r.body, r.user);
    AddCommentByColumns(db, r.slug, r.body, r.user, now);
    ApplyKeepsIntegrity(m, now, db);
    CommentReply(db, r.slug, r.body, r.user, now);
    var c := Apply(m, now, db);
    if c.reply.Error? {
      WriteEnds(h, db, now);
    } else {
      Writing(h, db, now);
      CompleteUnfolds(h, db, now);
      CommentIsShown(c.db, r, c.reply.ids[0], now);
      CommentByColumns(c.db, c.reply.ids[0], Some(r.user));
    }
  }

  lemma DropByColumns(db: Db, r: Request, now: int)
    requires Integrity(db) && r.RemoveComment?
    ensures AloneByColumns(db, r, now)
  {
    hide Registers, LogsIn, EditsAccount, Creates, Edits, Deletes, Comments, Favors, Follows;
    hide Integrity, Complete, CommentMatches;
    CommentFilterByColumns(db, r.comment, r.slug, r.user);
    CommentAlone(db, r, now);
  }

  lemma FavoriteByColumns(db: Db, r: Request, now: int)
    requires Integrity(db) && CallerOk(db, r) && (r.AddFavorite? || r.RemoveFavorite?)
    ensures AloneByColumns(db, r, now)
  {
    hide Registers, LogsIn, EditsAccount, Creates, Edits, Deletes, Comments, DropsComment, Follows;
    hide Integrity, Complete, Advance, ArticleAt, Abstract, ViewOf, ParseArticle, ShowsPage;
    SlugUsedAt(db.tables, r.slug);
    LookupFinds(db, r, now);
    CompleteUnfolds(Start(r), db, now);
    var at := ArticleAt(db.tables, r.slug);
    if at.None? {
      FinishedIsComplete(r, NotFound, db, now);
    } else {
      var a, h := at.value, Found(r, [at.value]);
      var m := NextWrite(h).value;
      ApplyKeepsIntegrity(m, now, db);
      var c := Apply(m, now, db);
      if c.reply.Error? {
        WriteEnds(h, db, now);
      } else {
        WriteThenPage(h, db, now);
        PageByColumns(c.db, a, Some(r.user));
      }
    }
  }

  /** A name in any case names at most one row. */
  lemma NamesByColumns(db: Db, name: string)
    requires Integrity(db)
    ensures
      var users, at := db.tables.users, UserNamed(db.tables.users, name);
      forall u :: u in users && FoldCase(users[u].username) == FoldCase(name) <==> at == Some(u)
  {
    IntegrityParts(db);
    hide Integrity, ArticlesOk, TagsOk, LinksOk, CommentsOk;
    var users, at := db.tables.users, UserNamed(db.tables.users, name);
    forall u | u in users && FoldCase(users[u].username) == FoldCase(name) ensures at == Some(u) {
      assert SameName(users[u].username, name);
      assert SameName(users[at.value].username, users[u].username);
    }
  }

  lemma FollowByColumns(db: Db, r: Request, now: int)
    requires Integrity(db) && CallerOk(db, r) && (r.FollowUser? || r.UnfollowUser?)
    ensures AloneByColumns(db, r, now)
  {
    hide Registers, LogsIn, EditsAccount, Creates, Edits, Deletes, Comments, DropsComment, Favors;
    hide Integrity, Complete, UserNamed;
    NamesByColumns(db, r.username);
    FollowAlone(db, r, now);
    var at := UserNamed(db.tables.users, r.username);
    assert at.Some? ==> at.value in db.tables.users;
  }

  lemma FollowAlone(db: Db, r: Request, now: int)
    requires Integrity(db) && (r.FollowUser? || r.UnfollowUser?)
    ensures
      Complete(Start(r), db, now)
      == match UserNamed(db.tables.users, r.username)
         case None => Turn(Finished(r, NotFound), db)
         case Some(u) =>
           var row := db.tables.users[u];
           var done := if r.FollowUser? then AddFollower(db, r.user, u) else RemoveFollower(db, r.user, u);
           Turn(Finished(r, if done.reply.Error? then Crashed(done.reply.error)
                            else ProfileBody(Profile(row.username, row.bio, row.image, r.FollowUser?))), done.db)
  {
    hide Integrity, Complete, Advance, UserNamed, AddFollower, RemoveFollower;
    var at := UserNamed(db.tables.users, r.username);
    UserLookup(db, r, now);
    CompleteUnfolds(Start(r), db, now);
    if at.None? {
      FinishedIsComplete(r, NotFound, db, now);
    } else {
      WriteEnds(FoundUser(r, at.value, db.tables.users[at.value]), db, now);
    }
  }

  /** Every request served alone does to the columns, and shows of them, what it should. */
  lemma EveryRequestByColumns(db: Db, r: Request, now: int)
    requires Integrity(db) && CallerOk(db, r)
    ensures AloneByColumns(db, r, now)
  {
    hide Integrity, CallerOk, AloneByColumns;
    match r
    case RegisterUser(_, _, _) => RegistrationByColumns(db, r, now);
    case LogIn(_, _) => LogInByColumns(db, r, now);
    case EditUser(_, _) => AccountByColumns(db, r, now);
    case CreateArticle(_, _, _, _, _) => CreateByColumns(db, r, now);
    case EditArticle(_, _, _, _, _) => EditByColumns(db, r, now);
    case RemoveArticle(_, _) => DeleteByColumns(db, r, now);
    case PostComment(_, _, _) => CommentByColumnsAlone(db, r, now);
    case RemoveComment(_, _, _) => DropByColumns(db, r, now);
    case AddFavorite(_, _) => FavoriteByColumns(db, r, now);
    case RemoveFavorite(_, _) => FavoriteByColumns(db, r, now);
    case FollowUser(_, _) => FollowByColumns(db, r, now);
    case UnfollowUser(_, _) => FollowByColumns(db, r, now);
  }

  // ---- reads by slug ----

  lemma SlugPageByColumns(db: Db, slug: string, viewer: Option<int>)
    requires Integrity(db)
    ensures HasAuthors(Abstract(db))
    ensures !SlugUsed(db.tables, slug) ==> PostAt(Abstract(db), slug).None?
    ensures
      forall a | a in db.tables.articles && db.tables.articles[a].slug == slug ::
        && PostAt(Abstract(db), slug) == Some(a)
        && a in Abstract(db).posts
        && ShowsPage(db.tables, a, viewer, ParseArticle(ViewOf(Abstract(db), a, viewer)))
  {
    IntegrityParts(db);
    LookupsAgree(db, slug);
    SlugUsedAt(db.tables, slug);
    AuthorsExist(db);
    AbstractRows(db);
    hide Integrity, Abstract, UsersOk, TagsOk, LinksOk, CommentsOk, SlugUsed, ShowsPage, PostAt, ViewOf, ParseArticle;
    forall a | a in db.tables.articles && db.tables.articles[a].slug == slug
      ensures PostAt(Abstract(db), slug) == Some(a)
      ensures ShowsPage(db.tables, a, viewer, ParseArticle(ViewOf(Abstract(db), a, viewer)))
    {
      SlugPicksOne(db.tables, db.serials, slug, a);
      PageByColumns(db, a, viewer);
    }
  }

  lemma PageCommentsByColumns(db: Db, slug: string, viewer: Option<int>)
    requires Integrity(db)
    ensures
      var t, s := db.tables, Abstract(db);
      && (forall c | OnSlug(t, c, slug) ::
            && PostAt(s, slug) == Some(t.comments[c].article) && t.comments[c].article in s.posts
            && c in s.posts[t.comments[c].article].remarks
            && s.posts[t.comments[c].article].remarks[c].author in s.users
            && ShowsComment(t, c, viewer, RemarkView(s, t.comments[c].article, c, viewer)))
      && (PostAt(s, slug).Some? ==>
            forall c | c in s.posts[PostAt(s, slug).value].remarks ::
              OnSlug(t, c, slug) && t.comments[c].article == PostAt(s, slug).value)
  {
    IntegrityParts(db);
    LookupsAgree(db, slug);
    AbstractRows(db);
    var t, s := db.tables, Abstract(db);
    hide Integrity, Abstract, UsersOk, TagsOk, LinksOk, CommentsOk, ShowsComment, PostAt, RemarkView;
    forall c | OnSlug(t, c, slug)
      ensures PostAt(s, slug) == Some(t.comments[c].article)
      ensures t.comments[c].article in s.posts && c in s.posts[t.comments[c].article].remarks
      ensures s.posts[t.comments[c].article].remarks[c].author in s.users
      ensures ShowsComment(t, c, viewer, RemarkView(s, t.comments[c].article, c, viewer))
    {
      SlugPicksOne(t, db.serials, slug, t.comments[c].article);
      CommentByColumns(db, c, viewer);
    }
  }

  /** Every comment on the article at the slug, and nothing else. */
  ghost predicate ShowsCommentsAt(t: Tables, slug: string, viewer: Option<int>, shown: seq<CommentView>) {
    && (forall v | v in shown :: OnSlug(t, v.commentId, slug) && ShowsComment(t, v.commentId, viewer, v))
    && (forall c | OnSlug(t, c, slug) :: exists v :: v in shown && v.commentId == c)
  }

  ghost predicate OnSlug(t: Tables, c: int, slug: string) {
    c in t.comments && t.comments[c].article in t.articles && t.articles[t.comments[c].article].slug == slug
  }

  lemma CommentsAtByColumns(db: Db, slug: string, viewer: Option<int>, shown: seq<CommentView>)
    requires Integrity(db)
    requires
      forall v :: v in shown <==>
        var s := Abstract(db);
        match PostAt(s, slug)
        case None => false
        case Some(a) => v.commentId in s.posts[a].remarks && s.posts[a].remarks[v.commentId].author in s.users
                        && v == RemarkView(s, a, v.commentId, viewer)
    ensures ShowsCommentsAt(db.tables, slug, viewer, shown)
  {
    PageCommentsByColumns(db, slug, viewer);
    hide Integrity, Abstract, PostAt, RemarkView, ShowsComment;
    var t, s := db.tables, Abstract(db);
    forall v | v in shown ensures OnSlug(t, v.commentId, slug) && ShowsComment(t, v.commentId, viewer, v) {
      assert v.commentId in s.posts[PostAt(s, slug).value].remarks;
    }
    forall c | OnSlug(t, c, slug) ensures exists v :: v in shown && v.commentId == c {
      var v := RemarkView(s, t.comments[c].article, c, viewer);
      assert ShowsComment(t, c, viewer, v);
      RemarkKeepsId(s, t.comments[c].article, c, viewer);
      assert v in shown;
    }
  }

  lemma RemarkKeepsId(s: Store, a: int, c: int, viewer: Option<int>)
    requires a in s.posts && c in s.posts[a].remarks && s.posts[a].remarks[c].author in s.users
    ensures RemarkView(s, a, c, viewer).commentId == c
  {
  }

  // ---- consequences ----

  /** Accepted, or the name is taken up to case, or only the e-mail is taken: decided by the rows there were. */
  ghost predicate TellsWhatIsTaken(users: map<int, User>, username: string, email: string, response: Response) {
    var named := exists u :: u in users && FoldCase(users[u].username) == FoldCase(username);
    var mailed := exists u :: u in users && users[u].email == email;
    && (response.TokenFor? <==> !named && !mailed)
    && (response == Taken("username") <==> named)
    && (response == Taken("email") <==> !named && mailed)
  }

  /** A registration with an id left and texts that fit succeeds iff name, up to case, and e-mail are free. */
  lemma RegistrationSucceedsIff(db: Db, r: Request, now: int)
    requires Integrity(db) && r.RegisterUser?
    requires db.serials.users < 0x7fff_ffff && |r.email| <= 255 && |r.hash| <= 255
    ensures
      var t := Complete(Start(r), db, now);
      t.handler.Finished? && TellsWhatIsTaken(db.tables.users, r.username, r.email, t.handler.response)
  {
    hide Integrity, Complete, Registers, TellsWhatIsTaken;
    RegistrationByColumns(db, r, now);
    var t := Complete(Start(r), db, now);
    RegistersIff(db, r, t.handler.response, t.db);
  }

  lemma RegistersIff(db: Db, r: Request, response: Response, db': Db)
    requires r.RegisterUser? && Registers(db, r, response, db')
    requires db.serials.users < 0x7fff_ffff && |r.email| <= 255 && |r.hash| <= 255
    ensures TellsWhatIsTaken(db.tables.users, r.username, r.email, response)
  {
    hide InsertsUser;
    match response
    case TokenFor(id, _) => InsertedReply(db, r.username, r.email, r.hash, Result(db', Ids([id])));
    case Taken(_) =>
      assert "username"[0] != "email"[0];
      if response == Taken("username") {
        InsertedReply(db, r.username, r.email, r.hash, Result(db', Error(UniqueViolation(UniqUsername))));
      } else {
        InsertedReply(db, r.username, r.email, r.hash, Result(db', Error(UniqueViolation(UniqEmail))));
      }
    case Crashed(e) => InsertedReply(db, r.username, r.email, r.hash, Result(db', Error(e)));
    case _ =>
  }

  lemma InsertedReply(db: Db, username: string, email: string, hash: string, r: Result)
    requires InsertsUser(db, username, email, hash, r)
    requires db.serials.users < 0x7fff_ffff && |email| <= 255 && |hash| <= 255
    ensures
      var users := db.tables.users;
      if exists u :: u in users && FoldCase(users[u].username) == FoldCase(username) then
        r.reply == Error(UniqueViolation(UniqUsername))
      else if exists u :: u in users && users[u].email == email then r.reply == Error(UniqueViolation(UniqEmail))
      else r.reply.Ids?
  {
  }

  /** After an account update has sent a hash, a log-in to that account succeeds iff the password matches that hash. */
  lemma LogInTakesTheSentHash(db: Db, user: int, p: UserPatch, password: string, now: int, later: int)
    requires Integrity(db) && user in db.tables.users && p.hash.Some?
    requires Complete(Start(EditUser(user, p)), db, now).handler.Finished?
    requires Complete(Start(EditUser(user, p)), db, now).handler.response.UserBody?
    ensures
      var t := Complete(Start(EditUser(user, p)), db, now);
      var u := Complete(Start(LogIn(t.handler.response.account.email, password)), t.db, later);
      && u.handler.Finished?
      && if PasswordMatches(password, p.hash.value)
         then u.handler.response == TokenFor(user, t.handler.response.account)
         else u.handler.response == Forbidden("password")
  {
    hide Integrity, Complete;
    var r := EditUser(user, p);
    var t := Complete(Start(r), db, now);
    AccountByColumns(db, r, now);
    EditKeepsDb(db, r, now);
    LogInByColumns(t.db, LogIn(t.handler.response.account.email, password), later);
  }

  lemma EditKeepsDb(db: Db, r: Request, now: int)
    requires Integrity(db) && r.EditUser?
    ensures Integrity(Complete(Start(r), db, now).db)
  {
    hide Integrity, Complete, UpdateUser;
    var m := UpdateUserById(r.user, r.userPatch);
    ApplyKeepsIntegrity(m, now, db);
    EditFinishes(db, r, now);
    WriteEnds(Start(r), db, now);
  }

  lemma EditFinishes(db: Db, r: Request, now: int)
    requires r.EditUser?
    ensures AfterWrite(Start(r), Apply(UpdateUserById(r.user, r.userPatch), now, db).reply).Finished?
  {
    hide UsernameTaken, EmailTaken, UserTooLong;
  }

  // ---- under interference ----

  /** Right after the insert of an interleaved create, the new row holds the texts of the request. */
  lemma InterleavedCreateByColumns(w: World, i: nat, now: int)
    requires WorldOk(w) && i < |w.handlers| && w.handlers[i].Start? && w.handlers[i].request.CreateArticle?
    ensures
      var r, after := w.handlers[i].request, Next(w, Step(i, now));
      && i < |after.handlers|
      && (after.handlers[i].Wrote? ==>
            && after.handlers[i].id == w.db.serials.articles + 1
            && CreatesArticle(w.db, r, now, Ids([after.handlers[i].id]), after.db))
      && (after.handlers[i].Finished? ==> after.db.tables == w.db.tables)
      && (after.handlers[i].Wrote? || after.handlers[i].Finished?)
  {
    hide WorldOk, Advance, Integrity, AddArticle;
    var r := w.handlers[i].request;
    WorldsHaveIntegrity(w);
    AddArticleByColumns(w.db, CreateStatement(r), now);
    CallerIsThere(w, i);
    CreateReply(w.db, CreateStatement(r), now);
    Writing(w.handlers[i], w.db, now);
  }

  /** Under interference, too, a handler's write does to the columns of the moment what its statement should. */
  lemma InterleavedWriteByColumns(w: World, i: nat, now: int)
    requires WorldOk(w) && i < |w.handlers| && CanAdvance(w.handlers[i]) && NextWrite(w.handlers[i]).Some?
    ensures
      var h, after := w.handlers[i], Next(w, Step(i, now));
      && i < |after.handlers|
      && exists reply ::
           after.handlers[i] == AfterWrite(h, reply)
           && DoesByColumns(NextWrite(h).value, now, w.db, Result(after.db, reply))
  {
    hide WorldOk, Advance, Integrity, Apply, DoesByColumns, AfterWrite, NextWrite, CanAdvance;
    WorldsHaveIntegrity(w);
    ApplyByColumns(NextWrite(w.handlers[i]).value, now, w.db);
    Writing(w.handlers[i], w.db, now);
  }

  lemma CallerIsThere(w: World, i: nat)
    requires WorldOk(w) && i < |w.handlers|
    ensures CallerOk(w.db, w.handlers[i].request)
  {
    HandlerCallerOk(w.db, w.handlers[i]);
  }

  /** The article an interleaved handler answers with is shown by its columns as they are at the read. */
  lemma InterleavedAnswerByColumns(w: World, i: nat, now: int)
    requires WorldOk(w) && i < |w.handlers| && w.handlers[i].Wrote? && ShowsArticle(w.handlers[i].request)
    ensures
      var h, after := w.handlers[i], Next(w, Step(i, now));
      && i < |after.handlers| && after.handlers[i].Finished?
      && (h.id in w.db.tables.articles ==>
            && after.handlers[i].response.ArticleBody?
            && ShowsPage(w.db.tables, h.id, Some(h.request.user), after.handlers[i].response.article))
  {
    hide WorldOk, Advance, Integrity, Abstract, ViewOf, ParseArticle, ShowsPage;
    var h := w.handlers[i];
    WorldsHaveIntegrity(w);
    ReadBackOutcome(w.db, h.request, h.id, now);
    if h.id in w.db.tables.articles {
      ReadBackShows(w.db, h.request, h.id, now);
      PageByColumns(w.db, h.id, Some(h.request.user));
    }
  }
}

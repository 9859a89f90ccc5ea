/** What a caller can conclude from a response: under interference, and when nothing interferes. */
module Outcomes {
  import opened Prelude
  import opened Text
  import opened Schema
  import opened Mutators
  import opened Queries
  import opened IntegrityProofs
  import opened AbstractStore
  import opened Refinement
  import opened Views
  import opened Counting
  import opened Handlers
  import opened Interleaving

  // ---- under interference ----

  ghost function Reached(events: seq<Event>): World {
    RunWorld(EMPTY_WORLD, events)
  }

  lemma ReachedIsOk(events: seq<Event>)
    ensures WorldOk(Reached(events))
  {
    EveryWorldIsOk(EMPTY_WORLD, events);
  }

  /** The statements that write, in the order in which an interleaving executes them. */
  ghost function CallsOf(w: World, events: seq<Event>): seq<Call>
    decreases |events|
  {
    if events == [] then []
    else
      var rest := CallsOf(Next(w, events[0]), events[1..]);
      match events[0]
      case Step(i, now) =>
        if i < |w.handlers| && CanAdvance(w.handlers[i]) && NextWrite(w.handlers[i]).Some?
        then [Call(NextWrite(w.handlers[i]).value, now)] + rest
        else rest
      case Arrive(_) => rest
  }

  /** Every interleaving leaves the database, and so the abstract store, where one run of its writes leaves it. */
  lemma {:induction false} InterleavingsAreRuns(w: World, events: seq<Event>)
    requires WorldOk(w)
    ensures RunWorld(w, events).db == Run(w.db, CallsOf(w, events))
    ensures Abstract(RunWorld(w, events).db) == PerformAll(Abstract(w.db), CallsOf(w, events))
    decreases |events|
  {
    hide WorldOk, Apply, Abstract, NextWrite, CanAdvance, Perform;
    WorldsHaveIntegrity(w);
    RunRefines(w.db, CallsOf(w, events));
    if events != [] {
      NextKeepsWorld(w, events[0]);
      InterleavingsAreRuns(Next(w, events[0]), events[1..]);
      if CallsOf(w, events) != CallsOf(Next(w, events[0]), events[1..]) {
        assert CallsOf(w, events)[1..] == CallsOf(Next(w, events[0]), events[1..]);
      }
    }
  }

  lemma WorldsHaveIntegrity(w: World)
    requires WorldOk(w)
    ensures Integrity(w.db)
  {
  }

  /** Live titles are all different, because slugs are and a slug is a function of its title. */
  lemma TitlesAreUnique(events: seq<Event>, a: int, b: int)
    requires a in Reached(events).db.tables.articles && b in Reached(events).db.tables.articles
    ensures
      var t := Reached(events).db.tables;
      t.articles[a].title == t.articles[b].title || Slugify(t.articles[a].title) == Slugify(t.articles[b].title)
      ==> a == b
  {
    ReachedIsOk(events);
    var t := Reached(events).db.tables;
    assert t.articles[a].slug == t.articles[b].slug ==> a == b;
  }

  /** A user id in a token names the same account in every later world, also after the trip through 64 bits. */
  lemma TokensStayGood(events: seq<Event>, later: seq<Event>, id: int)
    requires id in Reached(events).tokens
    ensures id in RunWorld(Reached(events), later).db.tables.users
    ensures NarrowToInt32(id) == id
  {
    ReachedIsOk(events);
    TokensAreKept(Reached(events), later);
    EveryWorldIsOk(Reached(events), later);
    assert id in Reached(events).db.tables.users;
    assert 1 <= id <= MAX_INT32;
    NarrowingIsLosslessIff(id);
  }

  lemma {:induction false} TokensAreKept(w: World, events: seq<Event>)
    ensures w.tokens <= RunWorld(w, events).tokens
    decreases |events|
  {
    if events != [] {
      TokensAreKept(Next(w, events[0]), events[1..]);
    }
  }

  /** Whether the row a handler has written is still there. */
  predicate StillThere(t: Tables, r: Request, id: int) {
    if r.PostComment? then id in t.comments else id in t.articles
  }

  /** A read-back goes wrong exactly when somebody has deleted the row since it was written. */
  lemma ReadBackFailsIffDeleted(events: seq<Event>, i: nat, now: int)
    requires i < |Reached(events).handlers| && Reached(events).handlers[i].Wrote?
    ensures
      var w := Reached(events);
      var h, after := w.handlers[i], Advance(w.handlers[i], w.db, now);
      && after.handler.Finished? && after.db == w.db
      && (after.handler.response == RowCountMismatch <==> !StillThere(w.db.tables, h.request, h.id))
  {
    hide Advance;
    ReachedIsOk(events);
    var w := Reached(events);
    ReadBackOutcome(w.db, w.handlers[i].request, w.handlers[i].id, now);
  }

  lemma ReadBackOutcome(db: Db, r: Request, id: int, now: int)
    requires Integrity(db) && ReadsBack(r)
    ensures
      var after := Advance(Wrote(r, id), db, now);
      && after.handler.Finished? && after.db == db
      && (after.handler.response == RowCountMismatch <==> !StillThere(db.tables, r, id))
  {
    hide Advance;
    var sc := SomeScan(db.tables);
    if r.PostComment? {
      ReadingCommentBack(r, id, db, now);
      CommentsAgree(db, sc, sc.comments, id, Some(r.user));
    } else {
      ReadingBack(r, id, db, now);
      ArticlesAgree(db, sc, id, Some(r.user));
      AbstractRows(db);
    }
  }

  /**
   * When a create answers with an article, its author is the caller and its tags are the requested names, each once
   * and in order, whatever other requests did between the insert and the read-back.
   */
  lemma CreateShowsTheCallersArticle(events: seq<Event>, i: nat, now: int)
    requires i < |Reached(events).handlers|
    requires Reached(events).handlers[i].Wrote? && Reached(events).handlers[i].request.CreateArticle?
    ensures
      var w := Reached(events);
      var r, after := w.handlers[i].request, Advance(w.handlers[i], w.db, now).handler;
      after.Finished? && (after.response.ArticleBody? ==>
        && r.user in Abstract(w.db).users
        && after.response.article.author == ProfileOf(Abstract(w.db), r.user, Some(r.user))
        && after.response.article.tagList == SortedNames(Requested(r))
        && after.response.article.slug == Slugify(after.response.article.title)
        && after.response.article.favoritesCount == |Fans(w.db.tables, w.handlers[i].id)|)
  {
    hide Advance;
    ReachedIsOk(events);
    CreatedPage(Reached(events).db, Reached(events).handlers[i].request, Reached(events).handlers[i].id, now);
  }

  lemma CreatedPage(db: Db, r: Request, id: int, now: int)
    requires Integrity(db) && SlugsFollowTitles(db.tables) && r.CreateArticle? && HandlerOk(db, Wrote(r, id))
    ensures
      var after := Advance(Wrote(r, id), db, now).handler;
      after.Finished? && (after.response.ArticleBody? ==>
        && r.user in Abstract(db).users
        && after.response.article.author == ProfileOf(Abstract(db), r.user, Some(r.user))
        && after.response.article.tagList == SortedNames(Requested(r))
        && after.response.article.slug == Slugify(after.response.article.title)
        && after.response.article.favoritesCount == |Fans(db.tables, id)|)
  {
    hide Advance, Integrity, Abstract, SortedNames;
    ReadBackOutcome(db, r, id, now);
    if id in db.tables.articles {
      ReadBackShows(db, r, id, now);
      AbstractRows(db);
      AbstractParts(db, Abstract(db));
      FansAreBounded(db, id);
      NarrowingIsLosslessIff(|Fans(db.tables, id)|);
    }
  }

  /** When an update answers with an article, it is the caller's; its text may by then be somebody else's update. */
  lemma EditShowsTheCallersArticle(events: seq<Event>, i: nat, now: int)
    requires i < |Reached(events).handlers|
    requires Reached(events).handlers[i].Wrote? && Reached(events).handlers[i].request.EditArticle?
    ensures
      var w := Reached(events);
      var r, after := w.handlers[i].request, Advance(w.handlers[i], w.db, now).handler;
      after.Finished? && (after.response.ArticleBody? ==>
        && r.user in Abstract(w.db).users
        && after.response.article.author == ProfileOf(Abstract(w.db), r.user, Some(r.user))
        && after.response.article.slug == Slugify(after.response.article.title))
  {
    hide Advance;
    ReachedIsOk(events);
    EditedPage(Reached(events).db, Reached(events).handlers[i].request, Reached(events).handlers[i].id, now);
  }

  lemma EditedPage(db: Db, r: Request, id: int, now: int)
    requires Integrity(db) && SlugsFollowTitles(db.tables) && r.EditArticle? && HandlerOk(db, Wrote(r, id))
    ensures
      var after := Advance(Wrote(r, id), db, now).handler;
      after.Finished? && (after.response.ArticleBody? ==>
        && r.user in Abstract(db).users
        && after.response.article.author == ProfileOf(Abstract(db), r.user, Some(r.user))
        && after.response.article.slug == Slugify(after.response.article.title))
  {
    hide Advance, Integrity, Abstract, SortedNames;
    ReadBackOutcome(db, r, id, now);
    if id in db.tables.articles {
      ReadBackShows(db, r, id, now);
      AbstractRows(db);
      AbstractParts(db, Abstract(db));
    }
  }

  /** When a comment is answered with a comment, it is the caller's and says what the caller sent. */
  lemma PostShowsTheCallersComment(events: seq<Event>, i: nat, now: int)
    requires i < |Reached(events).handlers|
    requires Reached(events).handlers[i].Wrote? && Reached(events).handlers[i].request.PostComment?
    ensures
      var w := Reached(events);
      var h, after := w.handlers[i], Advance(w.handlers[i], w.db, now).handler;
      after.Finished? && (after.response.CommentBody? ==>
        && h.request.user in Abstract(w.db).users
        && after.response.comment.commentId == h.id
        && after.response.comment.body == h.request.body
        && after.response.comment.author == ProfileOf(Abstract(w.db), h.request.user, Some(h.request.user)))
  {
    hide Advance;
    ReachedIsOk(events);
    PostedComment(Reached(events).db, Reached(events).handlers[i].request, Reached(events).handlers[i].id, now);
  }

  lemma PostedComment(db: Db, r: Request, id: int, now: int)
    requires Integrity(db) && r.PostComment? && HandlerOk(db, Wrote(r, id))
    ensures
      var after := Advance(Wrote(r, id), db, now).handler;
      after.Finished? && (after.response.CommentBody? ==>
        && r.user in Abstract(db).users
        && after.response.comment.commentId == id && after.response.comment.body == r.body
        && after.response.comment.author == ProfileOf(Abstract(db), r.user, Some(r.user)))
  {
    hide Advance, Integrity, Abstract;
    var sc := SomeScan(db.tables);
    ReadingCommentBack(r, id, db, now);
    CommentsAgree(db, sc, sc.comments, id, Some(r.user));
    AbstractParts(db, Abstract(db));
    if id in db.tables.comments {
      RemarksAreComments(db, id);
    }
  }

  /** The lookup by slug finds the one article there, or the handler answers that there is none. */
  lemma LookupFinds(db: Db, r: Request, now: int)
    requires Integrity(db) && ArticleRequest(r)
    ensures
      Advance(Start(r), db, now)
      == match ArticleAt(db.tables, r.slug)
         case None => Turn(Finished(r, NotFound), db)
         case Some(a) => Turn(Found(r, [a]), db)
  {
    hide Integrity, ArticleAt, GetArticleIdBySlug, Apply;
    SlugFinds(db, SomeScan(db.tables), r.slug);
  }

  /** A read-back of an article that is there answers with its page. */
  lemma ReadBackShows(db: Db, r: Request, id: int, now: int)
    requires Integrity(db) && id in db.tables.articles
    requires r.CreateArticle? || r.EditArticle? || r.AddFavorite? || r.RemoveFavorite?
    ensures id in Abstract(db).posts && Abstract(db).posts[id].row.author in Abstract(db).users
    ensures
      Advance(Wrote(r, id), db, now)
      == Turn(Finished(r, ArticleBody(ParseArticle(ViewOf(Abstract(db), id, Some(r.user))))), db)
  {
    hide Advance;
    AbstractRows(db);
    ReadingBack(r, id, db, now);
    ArticlesAgree(db, SomeScan(db.tables), id, Some(r.user));
  }

  lemma RenameFreesTheSlug(db: Db, author: int, slug: string, a: int, title: string, now: int)
    requires Integrity(db) && ArticleAt(db.tables, slug) == Some(a) && db.tables.articles[a].author == author
    requires !TooLong(title) && !TooLong(Slugify(title)) && Slugify(title) != slug
    requires !TooLong(db.tables.articles[a].title) && ArticleAt(db.tables, Slugify(title)).None?
    ensures
      var edit := EditArticle(author, slug, Some(title), None, None);
      var after := Advance(Start(edit), db, now);
      && after.handler == Wrote(edit, a) && Integrity(after.db)
      && after.db.serials == db.serials && after.db.tables.users == db.tables.users
      && after.db.tables.favorites == db.tables.favorites
      && after.db.tables.articles.Keys == db.tables.articles.Keys && after.db.tables.articles[a].title == title
      && ArticleAt(after.db.tables, slug).None?
  {
    hide Advance, Integrity, UpdateArticle, ArticleAt;
    var edit := EditArticle(author, slug, Some(title), None, None);
    RenamedTables(db, author, slug, a, EditStatement(edit).articlePatch, now);
    Writing(Start(edit), db, now);
  }

  lemma RenamedTables(db: Db, author: int, slug: string, a: int, p: ArticlePatch, now: int)
    requires Integrity(db) && ArticleAt(db.tables, slug) == Some(a) && db.tables.articles[a].author == author
    requires p.title.Some? && !TooLong(p.title.value)
    requires p.slug.Some? && !TooLong(p.slug.value) && p.slug.value != slug && ArticleAt(db.tables, p.slug.value).None?
    ensures
      var r := UpdateArticle(db, slug, author, p, now);
      && r.reply == Ids([a]) && Integrity(r.db)
      && r.db == db.(tables := db.tables.(articles := r.db.tables.articles))
      && r.db.tables.articles.Keys == db.tables.articles.Keys && r.db.tables.articles[a].title == p.title.value
      && ArticleAt(r.db.tables, slug).None?
  {
    hide Integrity;
    var row, r := PatchArticle(db.tables.articles[a], p, now), UpdateArticle(db, slug, author, p, now);
    UpdateArticleKeepsIntegrity(db, slug, author, p, now);
    assert r.db.tables.articles == db.tables.articles[a := row];
    IntegrityParts(db);
    hide UsersOk, TagsOk, LinksOk, CommentsOk;
    forall x | x in r.db.tables.articles ensures r.db.tables.articles[x].slug != slug {
      if x != a && db.tables.articles[x].slug == slug {
        SlugPicksOne(db.tables, db.serials, slug, x);
      }
    }
  }

  lemma PublishTakesTheSlug(db: Db, author: int, title: string, now: int)
    requires Integrity(db) && author in db.tables.users && db.serials.articles < MAX_INT32
    requires !TooLong(title) && !TooLong(Slugify(title)) && ArticleAt(db.tables, Slugify(title)).None?
    ensures
      var create, b := CreateArticle(author, title, "", "", None), db.serials.articles + 1;
      var after := Advance(Start(create), db, now);
      && after.handler == Wrote(create, b) && Integrity(after.db)
      && after.db.tables.users == db.tables.users && after.db.tables.favorites == db.tables.favorites
      && b !in db.tables.articles
      && (forall x | x in db.tables.articles ::
            x in after.db.tables.articles && after.db.tables.articles[x] == db.tables.articles[x])
      && ArticleAt(after.db.tables, Slugify(title)) == Some(b)
  {
    hide Advance, Integrity;
    var create, b := CreateArticle(author, title, "", "", None), db.serials.articles + 1;
    var m := CreateStatement(create);
    FreshIds(db);
    PublishedAlone(db, m, now);
    AddArticleKeepsIntegrity(db, m, now);
    hide AddArticle;
    var r := AddArticle(db, m, now);
    IntegrityParts(r.db);
    hide UsersOk, TagsOk, TagTableOk, LinksOk, CommentsOk;
    SlugPicksOne(r.db.tables, r.db.serials, m.slug, b);
    Writing(Start(create), db, now);
  }

  lemma FavoriteGoesToTheSlug(db: Db, user: int, slug: string, a: int, b: int, now: int)
    requires Integrity(db) && user in db.tables.users
    requires ArticleAt(db.tables, slug) == Some(b) && (user, b) !in db.tables.favorites
    ensures
      var write := Advance(Found(AddFavorite(user, slug), [a]), db, now);
      && write.handler == Wrote(AddFavorite(user, slug), a) && Integrity(write.db)
      && write.db == db.(tables := db.tables.(favorites := db.tables.favorites + {(user, b)}))
  {
    hide Advance, Integrity, ArticleAt;
    ApplyKeepsIntegrity(FavoriteArticle(slug, user), now, db);
    Writing(Found(AddFavorite(user, slug), [a]), db, now);
  }

  lemma FavoritedOnPage(db: Db, a: int, user: int)
    requires Integrity(db) && a in db.tables.articles
    ensures Abstract(db).posts[a].row.author in Abstract(db).users
    ensures
      var d := ParseArticle(ViewOf(Abstract(db), a, Some(user)));
      d.title == db.tables.articles[a].title && (d.favorited <==> (user, a) in db.tables.favorites)
  {
    AbstractRows(db);
    FansAreFavorites(db.tables);
  }

  /**
   * An interleaving that misleads: between the lookup and the write the author gives the article a new title and
   * publishes another one under the old slug.  The caller's favorite goes to the new article, and the answer shows
   * the old one, not favorited.
   */
  lemma RenameMisleadsFavorite(db: Db, user: int, a: int, oldTitle: string, newTitle: string, now: int)
    requires Integrity(db) && user in db.tables.users && a in db.tables.articles && (user, a) !in db.tables.favorites
    requires db.tables.articles[a].title == oldTitle && db.tables.articles[a].slug == Slugify(oldTitle)
    requires !TooLong(oldTitle) && !TooLong(Slugify(oldTitle)) && !TooLong(newTitle) && !TooLong(Slugify(newTitle))
    requires ArticleAt(db.tables, Slugify(newTitle)).None?
    requires db.serials.articles < MAX_INT32
    ensures
      var author, slug := db.tables.articles[a].author, Slugify(oldTitle);
      var look := Advance(Start(AddFavorite(user, slug)), db, now);
      var rename := Advance(Start(EditArticle(author, slug, Some(newTitle), None, None)), look.db, now);
      var publish := Advance(Start(CreateArticle(author, oldTitle, "", "", None)), rename.db, now);
      var write := Advance(look.handler, publish.db, now);
      var read := Advance(write.handler, write.db, now);
      && publish.handler == Wrote(CreateArticle(author, oldTitle, "", "", None), db.serials.articles + 1)
      && (user, db.serials.articles + 1) in read.db.tables.favorites
      && (user, a) !in read.db.tables.favorites
      && read.handler.Finished? && read.handler.response.ArticleBody?
      && read.handler.response.article.title == newTitle
      && !read.handler.response.article.favorited
  {
    hide *;
    var author, slug, b := db.tables.articles[a].author, Slugify(oldTitle), db.serials.articles + 1;
    SlugNamesTheArticle(db, a);
    LookupFindsFavorite(db, user, slug, now);
    RenameFreesTheSlug(db, author, slug, a, newTitle, now);
    var renamed := Advance(Start(EditArticle(author, slug, Some(newTitle), None, None)), db, now).db;
    PublishTakesTheSlug(renamed, author, oldTitle, now);
    var published := Advance(Start(CreateArticle(author, oldTitle, "", "", None)), renamed, now).db;
    NotAFan(db, user, b);
    FavoriteGoesToTheSlug(published, user, slug, a, b, now);
    var written := Advance(Found(AddFavorite(user, slug), [a]), published, now).db;
    ReadBackShows(written, AddFavorite(user, slug), a, now);
    FavoritedOnPage(written, a, user);
  }

  lemma LookupFindsFavorite(db: Db, user: int, slug: string, now: int)
    requires Integrity(db) && ArticleAt(db.tables, slug).Some?
    ensures
      Advance(Start(AddFavorite(user, slug)), db, now)
      == Turn(Found(AddFavorite(user, slug), [ArticleAt(db.tables, slug).value]), db)
  {
    hide Advance, Integrity, ArticleAt;
    LookupFinds(db, AddFavorite(user, slug), now);
  }

  lemma SlugNamesTheArticle(db: Db, a: int)
    requires Integrity(db) && a in db.tables.articles
    ensures ArticleAt(db.tables, db.tables.articles[a].slug) == Some(a)
    ensures db.tables.articles[a].author in db.tables.users
    ensures db.serials.articles + 1 !in db.tables.articles
  {
    FreshIds(db);
    SlugPicksOne(db.tables, db.serials, db.tables.articles[a].slug, a);
  }

  lemma NotAFan(db: Db, user: int, b: int)
    requires Integrity(db) && b !in db.tables.articles
    ensures (user, b) !in db.tables.favorites
  {
    assert forall p | p in db.tables.favorites :: p.1 in db.tables.articles;
  }

  /** A create without tags whose slug is free and whose author exists. */
  lemma PublishedAlone(db: Db, m: Mutation, now: int)
    requires Integrity(db) && m.AddNewArticle? && m.tagList.None? && m.author in db.tables.users
    requires !TooLong(m.title) && !TooLong(m.slug) && !SlugTaken(db.tables, m.slug, 0)
    requires db.serials.articles < MAX_INT32
    ensures
      var id, r := db.serials.articles + 1, AddArticle(db, m, now);
      && r.reply == Ids([id])
      && r.db.tables.articles
         == db.tables.articles[id := Article(m.title, m.slug, m.description, m.body, m.author, now, now)]
      && r.db.tables.favorites == db.tables.favorites && r.db.tables.users == db.tables.users
  {
    hide Integrity;
    FreshIds(db);
    SerialKeysNeverClash(m, now, db);
    assert InsertTags(db.tables.tags, db.serials.tags, []) == TagInsert(db.tables.tags, db.serials.tags, None);
  }
}

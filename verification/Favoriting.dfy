/**
 * The favorite and unfavorite handlers look a slug up, write by the slug, and read back by the id they found first.
 * Whether they answer with the article they wrote to depends on what others do between the lookup and the write.
 */
module Favoriting {
  import opened Prelude
  import opened Schema
  import opened Mutators
  import opened Queries
  import opened IntegrityProofs
  import opened AbstractStore
  import opened Refinement
  import opened Evolution
  import opened Views
  import opened Handlers
  import opened Interleaving
  import opened Outcomes

  // ---- where a log of calls and replies takes an article ----

  /** The slug of an article after one call, from the slug before it and the reply; None once it has been deleted. */
  function Moved(at: Option<string>, author: int, m: Mutation, reply: Reply): Option<string> {
    match m
    case UpdateArticleBySlug(slug, caller, p) =>
      if at == Some(slug) && caller == author && !reply.Error? then Some(p.slug.GetOr(slug)) else at
    case DeleteArticleBySlug(slug, caller) =>
      if at == Some(slug) && caller == author && !reply.Error? then None else at
    case _ => at
  }

  function Whereabouts(at: Option<string>, author: int, calls: seq<Call>, replies: seq<Reply>): Option<string>
    requires |calls| == |replies|
    decreases |calls|
  {
    if calls == [] then at
    else Whereabouts(Moved(at, author, calls[0].mutation, replies[0]), author, calls[1..], replies[1..])
  }

  function SlugOf(t: Tables, a: int): Option<string> {
    if a in t.articles then Some(t.articles[a].slug) else None
  }

  /** The article was there once and its author is known. */
  predicate Known(db: Db, a: int, author: int) {
    1 <= a <= db.serials.articles && (a in db.tables.articles ==> db.tables.articles[a].author == author)
  }

  lemma SlugNames(db: Db, a: int, slug: string)
    requires Integrity(db)
    ensures ArticleAt(db.tables, slug) == Some(a) <==> SlugOf(db.tables, a) == Some(slug)
  {
    if a in db.tables.articles && db.tables.articles[a].slug == slug {
      SlugPicksOne(db.tables, db.serials, slug, a);
    }
  }

  lemma UpdateMoves(db: Db, slug: string, caller: int, p: ArticlePatch, now: int, a: int, author: int)
    requires Integrity(db) && Known(db, a, author)
    ensures
      var r := UpdateArticle(db, slug, caller, p, now);
      SlugOf(r.db.tables, a)
      == Moved(SlugOf(db.tables, a), author, UpdateArticleBySlug(slug, caller, p), r.reply)
  {
    hide Integrity, ArticleAt, SlugTaken, TooLong;
    SlugNames(db, a, slug);
  }

  lemma DeleteMoves(db: Db, slug: string, caller: int, a: int, author: int)
    requires Integrity(db) && Known(db, a, author)
    ensures
      var r := DeleteArticle(db, slug, caller);
      SlugOf(r.db.tables, a) == Moved(SlugOf(db.tables, a), author, DeleteArticleBySlug(slug, caller), r.reply)
  {
    hide Integrity;
  }

  lemma CreateMovesNothing(db: Db, m: Mutation, now: int, a: int)
    requires Integrity(db) && m.AddNewArticle? && 1 <= a <= db.serials.articles
    ensures SlugOf(AddArticle(db, m, now).db.tables, a) == SlugOf(db.tables, a)
  {
    hide Integrity, InsertTags, TagLinks, SlugTaken, TooLong;
  }

  lemma StatementMoves(db: Db, m: Mutation, now: int, a: int, author: int)
    requires Integrity(db) && Known(db, a, author)
    ensures
      var r := Apply(m, now, db);
      SlugOf(r.db.tables, a) == Moved(SlugOf(db.tables, a), author, m, r.reply) && Known(r.db, a, author)
  {
    hide Integrity, AddArticle, UpdateArticle, DeleteArticle;
    KnownStays(db, m, now, a, author);
    match m
    case AddNewArticle(_, _, _, _, _, _) => CreateMovesNothing(db, m, now, a);
    case UpdateArticleBySlug(slug, caller, p) => UpdateMoves(db, slug, caller, p, now, a, author);
    case DeleteArticleBySlug(slug, caller) => DeleteMoves(db, slug, caller, a, author);
    case _ => OtherStatementsKeepArticles(db, m, now);
  }

  lemma OtherStatementsKeepArticles(db: Db, m: Mutation, now: int)
    requires !m.AddNewArticle? && !m.UpdateArticleBySlug? && !m.DeleteArticleBySlug?
    ensures Apply(m, now, db).db.tables.articles == db.tables.articles
  {
    hide ArticleAt, UsernameTaken, EmailTaken, CommentMatches;
  }

  lemma KnownStays(db: Db, m: Mutation, now: int, a: int, author: int)
    requires Integrity(db) && Known(db, a, author)
    ensures Known(Apply(m, now, db).db, a, author)
  {
    hide Integrity, Apply, TagNames;
    ApplyEvolves(m, now, db);
    assert a in Apply(m, now, db).db.tables.articles && a in db.tables.articles ==>
             SameOrigin(db.tables, Apply(m, now, db).db.tables, a);
  }

  /** The calls made and the replies they got tell where the article is: which slug it has, or that it is gone. */
  lemma {:induction false} LogTellsWhere(db: Db, calls: seq<Call>, a: int, author: int)
    requires Integrity(db) && Known(db, a, author)
    ensures |Replies(db, calls)| == |calls|
    ensures
      SlugOf(Run(db, calls).tables, a) == Whereabouts(SlugOf(db.tables, a), author, calls, Replies(db, calls))
    decreases |calls|
  {
    hide Integrity, Apply, SlugOf, Moved, Known;
    if calls != [] {
      var m, now := calls[0].mutation, calls[0].now;
      var r := Apply(m, now, db);
      ApplyKeepsIntegrity(m, now, db);
      StatementMoves(db, m, now, a, author);
      LogTellsWhere(r.db, calls[1..], a, author);
      assert Replies(db, calls)[1..] == Replies(r.db, calls[1..]);
    }
  }

  /** The only calls that could take an article of this author away from this slug. */
  predicate MayMove(m: Mutation, slug: string, author: int) {
    match m
    case UpdateArticleBySlug(oldSlug, caller, p) =>
      oldSlug == slug && caller == author && p.slug.Some? && p.slug.value != slug
    case DeleteArticleBySlug(oldSlug, caller) => oldSlug == slug && caller == author
    case _ => false
  }

  predicate NobodyMoves(calls: seq<Call>, slug: string, author: int) {
    forall k | 0 <= k < |calls| :: !MayMove(calls[k].mutation, slug, author)
  }

  lemma {:induction false} UnmovedStays(slug: string, author: int, calls: seq<Call>, replies: seq<Reply>)
    requires |calls| == |replies| && NobodyMoves(calls, slug, author)
    ensures Whereabouts(Some(slug), author, calls, replies) == Some(slug)
    decreases |calls|
  {
    if calls != [] {
      assert !MayMove(calls[0].mutation, slug, author);
      UnmovedStays(slug, author, calls[1..], replies[1..]);
    }
  }

  // ---- the window between the lookup and the write ----

  predicate OthersOnly(events: seq<Event>, i: nat) {
    forall k | 0 <= k < |events| :: events[k].Step? ==> events[k].i != i
  }

  lemma {:induction false} OthersLeaveTheHandler(w: World, events: seq<Event>, i: nat)
    requires WorldOk(w) && i < |w.handlers| && OthersOnly(events, i)
    ensures
      var end := RunWorld(w, events);
      WorldOk(end) && i < |end.handlers| && end.handlers[i] == w.handlers[i]
    decreases |events|
  {
    hide WorldOk, Advance;
    if events != [] {
      NextKeepsWorld(w, events[0]);
      assert OthersOnly(events[1..], i);
      OthersLeaveTheHandler(Next(w, events[0]), events[1..], i);
    }
  }

  /** The world in which handler i is about to write: it has looked the slug up, then others have done what they do. */
  ghost function AtWrite(w: World, i: nat, looked: int, window: seq<Event>): World {
    RunWorld(Next(w, Step(i, looked)), window)
  }

  /** The slug of the article found by the lookup, at the time of the write, as the log of the window tells it. */
  ghost function SlugAtWrite(w: World, i: nat, looked: int, window: seq<Event>, slug: string, author: int)
    : Option<string>
    requires WorldOk(w)
  {
    var after := Next(w, Step(i, looked));
    var calls := CallsOf(after, window);
    EveryCallIsAnswered(after.db, calls);
    Whereabouts(Some(slug), author, calls, Replies(after.db, calls))
  }

  lemma {:induction false} EveryCallIsAnswered(db: Db, calls: seq<Call>)
    ensures |Replies(db, calls)| == |calls|
    decreases |calls|
  {
    if calls != [] {
      EveryCallIsAnswered(Apply(calls[0].mutation, calls[0].now, db).db, calls[1..]);
    }
  }

  predicate Favors(r: Request) {
    r.AddFavorite? || r.RemoveFavorite?
  }

  /** The lookup has found a; at the write the handler still has a, and the slug names a iff the log says so. */
  lemma SlugOverTheWindow(w: World, i: nat, looked: int, window: seq<Event>, a: int)
    requires WorldOk(w) && i < |w.handlers| && w.handlers[i].Start? && Favors(w.handlers[i].request)
    requires ArticleAt(w.db.tables, w.handlers[i].request.slug) == Some(a) && OthersOnly(window, i)
    ensures
      var r, end := w.handlers[i].request, AtWrite(w, i, looked, window);
      && WorldOk(end) && i < |end.handlers| && end.handlers[i] == Found(r, [a])
      && (ArticleAt(end.db.tables, r.slug) == Some(a)
          <==> SlugAtWrite(w, i, looked, window, r.slug, w.db.tables.articles[a].author) == Some(r.slug))
  {
    hide WorldOk, Advance, Integrity, ArticleAt, SlugOf, RunWorld, Known;
    var r := w.handlers[i].request;
    WorldsHaveIntegrity(w);
    LookupFinds(w.db, r, looked);
    var after := Next(w, Step(i, looked));
    StepKeepsWorld(w, i, looked);
    OthersLeaveTheHandler(after, window, i);
    var calls := CallsOf(after, window);
    InterleavingsAreRuns(after, window);
    ArticlesAreKnown(w.db, a);
    LogTellsWhere(after.db, calls, a, w.db.tables.articles[a].author);
    var end := RunWorld(after, window);
    WorldsHaveIntegrity(end);
    SlugNames(w.db, a, r.slug);
    SlugNames(end.db, a, r.slug);
  }

  lemma ArticlesAreKnown(db: Db, a: int)
    requires Integrity(db) && a in db.tables.articles
    ensures Known(db, a, db.tables.articles[a].author)
  {
  }

  lemma CallerHasAccount(w: World, i: nat)
    requires WorldOk(w) && i < |w.handlers| && Favors(w.handlers[i].request)
    ensures w.handlers[i].request.user in w.db.tables.users
  {
    HandlerCallerOk(w.db, w.handlers[i]);
  }

  /**
   * A favorite whose lookup has found a, written after any doings of others.  If the slug still names a, the favorite
   * goes to a; if it names another article, to that one, while the handler goes on to show a; if it names none, the
   * handler crashes.  The slug still names a exactly when the calls made in between and their replies leave a there.
   */
  lemma FavoriteShowsTheArticleIffSlugUnmoved(w: World, i: nat, looked: int, window: seq<Event>, now: int, a: int)
    requires WorldOk(w) && i < |w.handlers| && w.handlers[i].Start? && w.handlers[i].request.AddFavorite?
    requires ArticleAt(w.db.tables, w.handlers[i].request.slug) == Some(a) && OthersOnly(window, i)
    ensures
      var r, before := w.handlers[i].request, AtWrite(w, i, looked, window);
      var after, at := Next(before, Step(i, now)), ArticleAt(before.db.tables, r.slug);
      && i < |after.handlers|
      && (match at
          case None => after.handlers[i] == Finished(r, Crashed(NotNullViolation)) && after.db == before.db
          case Some(b) =>
            if (r.user, b) in before.db.tables.favorites then
              after.handlers[i] == Finished(r, Crashed(UniqueViolation(PkFavorites))) && after.db == before.db
            else
              && after.handlers[i] == Wrote(r, a)
              && after.db.tables == before.db.tables.(favorites := before.db.tables.favorites + {(r.user, b)}))
      && (at == Some(a)
          <==> SlugAtWrite(w, i, looked, window, r.slug, w.db.tables.articles[a].author) == Some(r.slug))
  {
    hide WorldOk, Advance, Integrity, ArticleAt, AtWrite, SlugAtWrite;
    SlugOverTheWindow(w, i, looked, window, a);
    var before := AtWrite(w, i, looked, window);
    CallerHasAccount(before, i);
    Writing(before.handlers[i], before.db, now);
  }

  /** The same for the unfavorite, which never crashes: it may leave the caller a fan of the article it shows. */
  lemma UnfavoriteShowsTheArticleIffSlugUnmoved(w: World, i: nat, looked: int, window: seq<Event>, now: int, a: int)
    requires WorldOk(w) && i < |w.handlers| && w.handlers[i].Start? && w.handlers[i].request.RemoveFavorite?
    requires ArticleAt(w.db.tables, w.handlers[i].request.slug) == Some(a) && OthersOnly(window, i)
    ensures
      var r, before := w.handlers[i].request, AtWrite(w, i, looked, window);
      var after, at := Next(before, Step(i, now)), ArticleAt(before.db.tables, r.slug);
      var favorites := before.db.tables.favorites;
      && i < |after.handlers| && after.handlers[i] == Wrote(r, a)
      && after.db.tables
         == before.db.tables.(favorites := if at.Some? then favorites - {(r.user, at.value)} else favorites)
      && ((r.user, a) !in after.db.tables.favorites
          <==> || (r.user, a) !in favorites
               || SlugAtWrite(w, i, looked, window, r.slug, w.db.tables.articles[a].author) == Some(r.slug))
  {
    hide WorldOk, Advance, Integrity, ArticleAt, AtWrite, SlugAtWrite;
    SlugOverTheWindow(w, i, looked, window, a);
    var before := AtWrite(w, i, looked, window);
    Writing(before.handlers[i], before.db, now);
  }

  /**
   * The author is the only one who can come between: if nobody sends an update of the author's at this slug with
   * another slug, nor a delete of the author's at this slug, the write goes to the article that was found.
   */
  lemma OnlyTheAuthorMovesTheSlug(w: World, i: nat, looked: int, window: seq<Event>, a: int)
    requires WorldOk(w) && i < |w.handlers| && w.handlers[i].Start? && Favors(w.handlers[i].request)
    requires ArticleAt(w.db.tables, w.handlers[i].request.slug) == Some(a) && OthersOnly(window, i)
    requires
      NobodyMoves(CallsOf(Next(w, Step(i, looked)), window), w.handlers[i].request.slug,
                  w.db.tables.articles[a].author)
    ensures
      ArticleAt(AtWrite(w, i, looked, window).db.tables, w.handlers[i].request.slug) == Some(a)
  {
    hide WorldOk, Advance, Integrity, ArticleAt, AtWrite, NobodyMoves;
    SlugOverTheWindow(w, i, looked, window, a);
    var after := Next(w, Step(i, looked));
    var calls := CallsOf(after, window);
    EveryCallIsAnswered(after.db, calls);
    UnmovedStays(w.handlers[i].request.slug, w.db.tables.articles[a].author, calls, Replies(after.db, calls));
  }

  /**
   * After the write, and any doings of others, the answer is the page of the article that was found first, for this
   * caller and as it then is; or the mismatch if that article has been deleted.
   */
  lemma AnswerShowsTheFoundArticle(w: World, i: nat, later: seq<Event>, now: int)
    requires WorldOk(w) && i < |w.handlers| && w.handlers[i].Wrote? && Favors(w.handlers[i].request)
    requires OthersOnly(later, i)
    ensures
      var r, a, end := w.handlers[i].request, w.handlers[i].id, RunWorld(w, later);
      var after, s := Next(end, Step(i, now)), Abstract(end.db);
      && i < |after.handlers| && after.db == end.db
      && (a in s.posts ==> s.posts[a].row.author in s.users)
      && after.handlers[i]
         == Finished(r, if a in s.posts then ArticleBody(ParseArticle(ViewOf(s, a, Some(r.user))))
                        else RowCountMismatch)
  {
    hide WorldOk, Advance, Integrity, Abstract, RunWorld, ViewOf, ParseArticle;
    OthersLeaveTheHandler(w, later, i);
    var end := RunWorld(w, later);
    WorldsHaveIntegrity(end);
    AbstractRows(end.db);
    var r, a := w.handlers[i].request, w.handlers[i].id;
    if a in end.db.tables.articles {
      ReadBackShows(end.db, r, a, now);
    } else {
      ReadBackMisses(end.db, r, a, now);
    }
  }

  lemma ReadBackMisses(db: Db, r: Request, id: int, now: int)
    requires Integrity(db) && Favors(r) && id !in db.tables.articles
    ensures Advance(Wrote(r, id), db, now) == Turn(Finished(r, RowCountMismatch), db)
  {
    hide Advance, Integrity, Abstract;
    AbstractRows(db);
    ReadingBack(r, id, db, now);
    ArticlesAgree(db, SomeScan(db.tables), id, Some(r.user));
  }
}

/** Partial updates: a later one wins field by field, so a run of them is one. */
module Patches {
  import opened Prelude
  import opened Schema
  import opened Mutators
  import opened IntegrityProofs

  // ---- accounts ----

  /** The right-biased merge: what q sets it sets, the rest is left to p. */
  function ThenPatchUser(p: UserPatch, q: UserPatch): UserPatch {
    UserPatch(q.username.OrElse(p.username), q.email.OrElse(p.email), q.hash.OrElse(p.hash), q.bio.OrElse(p.bio),
              q.image.OrElse(p.image))
  }

  /**
   * Once p has succeeded, q answers as the merged patch would have answered in place of p, error for error; and when
   * it succeeds it leaves the same database.
   */
  lemma UserPatchesMerge(db: Db, user: int, p: UserPatch, q: UserPatch)
    requires !UpdateUser(db, user, p).reply.Error?
    ensures
      var first := UpdateUser(db, user, p);
      var second, merged := UpdateUser(first.db, user, q), UpdateUser(db, user, ThenPatchUser(p, q));
      && second.reply == merged.reply
      && (!second.reply.Error? ==> second.db == merged.db)
      && first.db.tables.users.Keys == db.tables.users.Keys
  {
    hide UserTooLong;
    var first := UpdateUser(db, user, p);
    if user in db.tables.users {
      var row := db.tables.users[user];
      var final := PatchUser(row, ThenPatchUser(p, q));
      assert PatchUser(PatchUser(row, p), q) == final;
      OthersTakeTheSame(db.tables, user, PatchUser(row, p), final);
      assert first.db.tables.users[user := final] == db.tables.users[user := final];
    }
  }

  lemma OthersTakeTheSame(t: Tables, user: int, row: User, other: User)
    requires user in t.users
    ensures
      var t' := t.(users := t.users[user := row]);
      && UsernameTaken(t'.users, other.username, user) == UsernameTaken(t.users, other.username, user)
      && EmailTaken(t'.users, other.email, user) == EmailTaken(t.users, other.email, user)
  {
    var t' := t.(users := t.users[user := row]);
    assert forall u | u != user :: (u in t'.users <==> u in t.users) && (u in t.users ==> t'.users[u] == t.users[u]);
    if u :| u in t.users && u != user && SameName(t.users[u].username, other.username) {
      assert u in t'.users;
    }
    if u :| u in t.users && u != user && t.users[u].email == other.email {
      assert u in t'.users;
    }
  }

  /** One patch after the other, as long as they succeed. */
  function PatchUserInTurn(db: Db, user: int, patches: seq<UserPatch>): Option<Db>
    decreases |patches|
  {
    if patches == [] then Some(db)
    else
      var r := UpdateUser(db, user, patches[0]);
      if r.reply.Error? then None else PatchUserInTurn(r.db, user, patches[1..])
  }

  function MergedUserPatch(patches: seq<UserPatch>): UserPatch
    requires patches != []
    decreases |patches|
  {
    if |patches| == 1 then patches[0]
    else MergedUserPatch([ThenPatchUser(patches[0], patches[1])] + patches[2..])
  }

  /** Any run of successful updates of one account is a single update with the merged patch. */
  lemma {:induction false} UserPatchesAreOne(db: Db, user: int, patches: seq<UserPatch>)
    requires patches != [] && PatchUserInTurn(db, user, patches).Some?
    ensures
      var merged := UpdateUser(db, user, MergedUserPatch(patches));
      !merged.reply.Error? && PatchUserInTurn(db, user, patches) == Some(merged.db)
    decreases |patches|
  {
    hide UpdateUser, ThenPatchUser;
    var rest := patches[1..];
    if |patches| == 1 {
      assert PatchUserInTurn(UpdateUser(db, user, patches[0]).db, user, rest).Some?;
    } else {
      var shorter := [ThenPatchUser(patches[0], patches[1])] + patches[2..];
      UserPatchesMerge(db, user, patches[0], patches[1]);
      assert rest[1..] == patches[2..] && shorter[1..] == patches[2..];
      var first := UpdateUser(db, user, patches[0]).db;
      assert PatchUserInTurn(first, user, rest)
             == PatchUserInTurn(UpdateUser(first, user, patches[1]).db, user, patches[2..]);
      UserPatchesAreOne(db, user, shorter);
    }
  }

  // ---- articles ----

  function ThenPatchArticle(p: ArticlePatch, q: ArticlePatch): ArticlePatch {
    ArticlePatch(q.title.OrElse(p.title), q.slug.OrElse(p.slug), q.description.OrElse(p.description),
                 q.body.OrElse(p.body))
  }

  /** An update that has found its article. */
  ghost predicate Patched(r: Result) {
    r.reply.Ids? && r.reply.ids != []
  }

  lemma PatchedOne(db: Db, slug: string, author: int, p: ArticlePatch, now: int)
    requires Integrity(db) && Patched(UpdateArticle(db, slug, author, p, now))
    ensures
      var at, r := ArticleAt(db.tables, slug), UpdateArticle(db, slug, author, p, now);
      && at.Some? && r.reply == Ids([at.value]) && db.tables.articles[at.value].author == author
      && r.db == db.(tables := db.tables.(
           articles := db.tables.articles[at.value := PatchArticle(db.tables.articles[at.value], p, now)]))
      && ArticleAt(r.db.tables, p.slug.GetOr(slug)) == at
      && r.db.tables.articles[at.value].author == author
      && r.db.tables.articles[at.value].createdAt == db.tables.articles[at.value].createdAt
  {
    hide Integrity, SlugTaken, ArticleAt, TooLong;
    var r, a := UpdateArticle(db, slug, author, p, now), ArticleAt(db.tables, slug).value;
    UpdateArticleKeepsIntegrity(db, slug, author, p, now);
    IntegrityParts(r.db);
    SlugPicksOne(r.db.tables, r.db.serials, p.slug.GetOr(slug), a);
  }

  lemma OtherSlugsTakeTheSame(t: Tables, a: int, row: Article, slug: string)
    requires a in t.articles
    ensures SlugTaken(t.(articles := t.articles[a := row]), slug, a) == SlugTaken(t, slug, a)
  {
    var articles := t.articles[a := row];
    if b :| b in t.articles && b != a && t.articles[b].slug == slug {
      assert b in articles;
    }
  }

  /**
   * If q addresses the article by the slug that p has left it with, q answers as the merged patch would have answered
   * in place of p at the old slug; and when it succeeds it leaves the same database, dates included.
   */
  lemma ArticlePatchesMerge(db: Db, slug: string, author: int, p: ArticlePatch, q: ArticlePatch, now: int, later: int)
    requires Integrity(db) && Patched(UpdateArticle(db, slug, author, p, now))
    ensures
      var first := UpdateArticle(db, slug, author, p, now);
      var second := UpdateArticle(first.db, p.slug.GetOr(slug), author, q, later);
      var merged := UpdateArticle(db, slug, author, ThenPatchArticle(p, q), later);
      && second.reply == merged.reply
      && (Patched(second) ==> second.db == merged.db)
  {
    hide Integrity, SlugTaken, ArticleAt, TooLong;
    PatchedOne(db, slug, author, p, now);
    var a := ArticleAt(db.tables, slug).value;
    var row := db.tables.articles[a];
    var final := PatchArticle(row, ThenPatchArticle(p, q), later);
    assert PatchArticle(PatchArticle(row, p, now), q, later) == final;
    OtherSlugsTakeTheSame(db.tables, a, PatchArticle(row, p, now), final.slug);
    assert db.tables.articles[a := PatchArticle(row, p, now)][a := final] == db.tables.articles[a := final];
  }

  datatype TimedPatch = TimedPatch(patch: ArticlePatch, now: int)

  /** One patch after the other, each at the slug the one before has left. */
  ghost function PatchArticleInTurn(db: Db, slug: string, author: int, patches: seq<TimedPatch>): Option<Db>
    decreases |patches|
  {
    if patches == [] then Some(db)
    else
      var r := UpdateArticle(db, slug, author, patches[0].patch, patches[0].now);
      if Patched(r) then PatchArticleInTurn(r.db, patches[0].patch.slug.GetOr(slug), author, patches[1..]) else None
  }

  /** The merge carries the time of the last one. */
  function MergedArticlePatch(patches: seq<TimedPatch>): TimedPatch
    requires patches != []
    decreases |patches|
  {
    if |patches| == 1 then patches[0]
    else MergedArticlePatch([Both(patches[0], patches[1])] + patches[2..])
  }

  function Both(p: TimedPatch, q: TimedPatch): TimedPatch {
    TimedPatch(ThenPatchArticle(p.patch, q.patch), q.now)
  }

  /** Any run of successful updates of one article is a single update with the merged patch. */
  lemma {:induction false} ArticlePatchesAreOne(db: Db, slug: string, author: int, patches: seq<TimedPatch>)
    requires Integrity(db) && patches != [] && PatchArticleInTurn(db, slug, author, patches).Some?
    ensures
      var m := MergedArticlePatch(patches);
      var merged := UpdateArticle(db, slug, author, m.patch, m.now);
      Patched(merged) && PatchArticleInTurn(db, slug, author, patches) == Some(merged.db)
    decreases |patches|
  {
    hide UpdateArticle, Integrity, Patched;
    var rest := patches[1..];
    if |patches| > 1 {
      var p, q := patches[0], patches[1];
      var shorter := [Both(p, q)] + patches[2..];
      assert rest[1..] == patches[2..] && shorter[1..] == patches[2..];
      ArticlePatchesMerge(db, slug, author, p.patch, q.patch, p.now, q.now);
      SameReplySamePatched(UpdateArticle(UpdateArticle(db, slug, author, p.patch, p.now).db, p.patch.slug.GetOr(slug),
                                         author, q.patch, q.now),
                           UpdateArticle(db, slug, author, Both(p, q).patch, q.now));
      assert Both(p, q).patch.slug.GetOr(slug) == q.patch.slug.GetOr(p.patch.slug.GetOr(slug));
      var first := UpdateArticle(db, slug, author, p.patch, p.now).db;
      assert PatchArticleInTurn(first, p.patch.slug.GetOr(slug), author, rest)
             == PatchArticleInTurn(UpdateArticle(first, p.patch.slug.GetOr(slug), author, q.patch, q.now).db,
                                   q.patch.slug.GetOr(p.patch.slug.GetOr(slug)), author, patches[2..]);
      ArticlePatchesAreOne(db, slug, author, shorter);
    } else {
      var m := patches[0];
      assert PatchArticleInTurn(UpdateArticle(db, slug, author, m.patch, m.now).db, m.patch.slug.GetOr(slug), author,
                                rest).Some?;
    }
  }

  lemma SameReplySamePatched(r: Result, s: Result)
    requires r.reply == s.reply
    ensures Patched(r) == Patched(s)
  {
  }
}

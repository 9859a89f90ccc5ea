/** What no later statement can undo: issued ids, accounts, authorship, dates of creation, tags and comments. */
module Evolution {
  import opened Prelude
  import opened Schema
  import opened Mutators
  import opened IntegrityProofs
  import opened AbstractStore
  import opened Refinement

  predicate SerialsGrow(s: Serials, s': Serials) {
    s.users <= s'.users && s.articles <= s'.articles && s.tags <= s'.tags && s.comments <= s'.comments
  }

  /** The parts of an article that are fixed when it is created. */
  predicate SameOrigin(t: Tables, t': Tables, a: int)
    requires a in t.articles && a in t'.articles
  {
    && t.articles[a].author == t'.articles[a].author
    && t.articles[a].createdAt == t'.articles[a].createdAt
    && TagNames(t, a) == TagNames(t', a)
  }

  /**
   * db' can come after db: nobody loses an account, a row that is still there is the row it was, and a row that is
   * new sits under an id that the sequence had not yet issued.
   */
  predicate Evolves(db: Db, db': Db) {
    var t, s, t' := db.tables, db.serials, db'.tables;
    && SerialsGrow(s, db'.serials)
    && (forall u | u in t.users :: u in t'.users)
    && (forall u | u in t'.users :: u in t.users || u > s.users)
    && (forall a | a in t'.articles :: if a in t.articles then SameOrigin(t, t', a) else a > s.articles)
    && (forall g | g in t.tags :: g in t'.tags && t'.tags[g] == t.tags[g])
    && (forall g | g in t'.tags :: g in t.tags || g > s.tags)
    && (forall c | c in t'.comments :: if c in t.comments then t'.comments[c] == t.comments[c] else c > s.comments)
  }

  lemma EvolvesTransitive(a: Db, b: Db, c: Db)
    requires Integrity(a) && Evolves(a, b) && Evolves(b, c)
    ensures Evolves(a, c)
  {
    forall x | x in c.tables.articles && x in a.tables.articles ensures SameOrigin(a.tables, c.tables, x) {
      assert x <= a.serials.articles;
      assert x in b.tables.articles;
    }
  }

  lemma AddArticleEvolves(db: Db, m: Mutation, now: int)
    requires Integrity(db) && m.AddNewArticle?
    ensures Evolves(db, AddArticle(db, m, now).db)
  {
    hide Integrity, InsertTags, TagLinks, TagNames, SlugTaken, Evolves;
    var t, s := db.tables, db.serials;
    var id, names := s.articles + 1, m.tagList.GetOr([]);
    var r := AddArticle(db, m, now);
    IntegrityParts(db);
    FreshIds(db);
    InsertTagsFacts(t.tags, s.tags, names);
    hide UsersOk, ArticlesOk, TagsOk, TagTableOk, CommentsOk;
    if r.reply.Error? {
      FailureKeepsTables(db, m, now);
      GrownSerialsEvolve(db, r.db.serials);
    } else {
      var ins := InsertTags(t.tags, s.tags, names);
      LinksCarryTheNames(t, id, ins, names, r.db.tables);
      NewArticleEvolves(db, id, ins, r.db);
    }
  }

  lemma GrownSerialsEvolve(db: Db, s: Serials)
    requires SerialsGrow(db.serials, s)
    ensures Evolves(db, db.(serials := s))
  {
    hide TagNames;
  }

  lemma NewArticleEvolves(db: Db, id: int, ins: TagInsert, db': Db)
    requires id == db.serials.articles + 1 && SerialsGrow(db.serials, db'.serials)
    requires db'.tables.articles.Keys == db.tables.articles.Keys + {id} && id !in db.tables.articles
    requires forall a | a in db.tables.articles :: db'.tables.articles[a] == db.tables.articles[a]
    requires db'.tables.users == db.tables.users && db'.tables.comments == db.tables.comments
    requires db'.tables.tags == ins.tags
    requires forall g | g in db.tables.tags :: g in ins.tags && ins.tags[g] == db.tables.tags[g]
    requires forall g | g in ins.tags && g !in db.tables.tags :: g > db.serials.tags
    requires forall a | a != id :: TagNames(db'.tables, a) == TagNames(db.tables, a)
    ensures Evolves(db, db')
  {
    hide TagNames;
  }

  lemma DeleteArticleEvolves(db: Db, slug: string, author: int)
    ensures Evolves(db, DeleteArticle(db, slug, author).db)
  {
    var t, t' := db.tables, DeleteArticle(db, slug, author).db.tables;
    forall a | a in t'.articles ensures a in t.articles && SameOrigin(t, t', a) {
      assert TagNames(t, a) == TagNames(t', a);
    }
  }

  lemma SameTagNames(t: Tables, t': Tables)
    requires t'.articleTags == t.articleTags && t'.tags == t.tags
    ensures forall a :: TagNames(t', a) == TagNames(t, a)
  {
  }

  lemma AddUserEvolves(db: Db, username: string, email: string, hash: string)
    requires Integrity(db)
    ensures Evolves(db, AddUser(db, username, email, hash).db)
  {
    hide Integrity, TagNames, UsernameTaken, EmailTaken;
    FreshIds(db);
    SameTagNames(db.tables, AddUser(db, username, email, hash).db.tables);
  }

  lemma UpdateArticleEvolves(db: Db, oldSlug: string, author: int, p: ArticlePatch, now: int)
    ensures Evolves(db, UpdateArticle(db, oldSlug, author, p, now).db)
  {
    hide TagNames, SlugTaken;
    SameTagNames(db.tables, UpdateArticle(db, oldSlug, author, p, now).db.tables);
  }

  lemma AddCommentEvolves(db: Db, slug: string, body: string, user: int, now: int)
    requires Integrity(db)
    ensures Evolves(db, AddComment(db, slug, body, user, now).db)
  {
    hide Integrity, TagNames, ArticleAt;
    FreshIds(db);
    SameTagNames(db.tables, AddComment(db, slug, body, user, now).db.tables);
  }

  lemma SmallChangesEvolve(m: Mutation, now: int, db: Db)
    requires m.UpdateUserById? || m.DeleteComment? || m.FavoriteArticle? || m.UnfavoriteArticle? || m.Follow?
             || m.Unfollow?
    ensures Evolves(db, Apply(m, now, db).db)
  {
    hide TagNames, UsernameTaken, EmailTaken, CommentMatches, ArticleAt;
    SameTagNames(db.tables, Apply(m, now, db).db.tables);
  }

  lemma ApplyEvolves(m: Mutation, now: int, db: Db)
    requires Integrity(db)
    ensures Evolves(db, Apply(m, now, db).db)
  {
    hide Integrity, Evolves, AddUser, UpdateUser, AddArticle, UpdateArticle, DeleteArticle, AddComment;
    match m
    case AddNewUser(username, email, hash) => AddUserEvolves(db, username, email, hash);
    case AddNewArticle(_, _, _, _, _, _) => AddArticleEvolves(db, m, now);
    case UpdateArticleBySlug(oldSlug, author, p) => UpdateArticleEvolves(db, oldSlug, author, p, now);
    case DeleteArticleBySlug(slug, author) => DeleteArticleEvolves(db, slug, author);
    case AddCommentToArticle(slug, body, user) => AddCommentEvolves(db, slug, body, user, now);
    case _ => SmallChangesEvolve(m, now, db);
  }

  lemma {:induction false} RunEvolves(db: Db, calls: seq<Call>)
    requires Integrity(db)
    ensures Evolves(db, Run(db, calls))
    decreases |calls|
  {
    hide Apply, Evolves, Integrity;
    GrownSerialsEvolve(db, db.serials);
    if calls != [] {
      var m, now := calls[0].mutation, calls[0].now;
      var next := Apply(m, now, db).db;
      ApplyKeepsIntegrity(m, now, db);
      ApplyEvolves(m, now, db);
      RunEvolves(next, calls[1..]);
      EvolvesTransitive(db, next, Run(next, calls[1..]));
    }
  }

  /** An id that is out of use again, after a delete or a failed insert, never comes back. */
  lemma IdsAreNeverReused(db: Db, before: seq<Call>, after: seq<Call>)
    requires Integrity(db)
    ensures
      var mid := Run(db, before);
      var end := Run(mid, after);
      && (forall a | 1 <= a <= mid.serials.articles && a !in mid.tables.articles :: a !in end.tables.articles)
      && (forall c | 1 <= c <= mid.serials.comments && c !in mid.tables.comments :: c !in end.tables.comments)
      && (forall u | 1 <= u <= mid.serials.users && u !in mid.tables.users :: u !in end.tables.users)
      && (forall g | 1 <= g <= mid.serials.tags && g !in mid.tables.tags :: g !in end.tables.tags)
  {
    RunKeepsIntegrity(db, before);
    RunEvolves(Run(db, before), after);
  }

  // ---- ids only go up ----

  datatype Sequence = UserIds | ArticleIds | CommentIds

  function Last(s: Serials, q: Sequence): int {
    match q
    case UserIds => s.users
    case ArticleIds => s.articles
    case CommentIds => s.comments
  }

  predicate DrawsFrom(m: Mutation, q: Sequence) {
    match q
    case UserIds => m.AddNewUser?
    case ArticleIds => m.AddNewArticle?
    case CommentIds => m.AddCommentToArticle?
  }

  /** The ids from one sequence that a run has handed out, in order. */
  ghost function Issued(db: Db, calls: seq<Call>, q: Sequence): seq<int>
    decreases |calls|
  {
    if calls == [] then []
    else
      var r := Apply(calls[0].mutation, calls[0].now, db);
      (if DrawsFrom(calls[0].mutation, q) && r.reply.Ids? then r.reply.ids else []) + Issued(r.db, calls[1..], q)
  }

  predicate Rising(ids: seq<int>, low: int, high: int) {
    && (forall i, j | 0 <= i < j < |ids| :: ids[i] < ids[j])
    && (forall i | 0 <= i < |ids| :: low < ids[i] <= high)
  }

  lemma InsertReturnsTheNextId(m: Mutation, now: int, db: Db, q: Sequence)
    requires Integrity(db) && DrawsFrom(m, q)
    ensures
      var r := Apply(m, now, db);
      r.reply.Ids? ==> r.reply.ids == [Last(db.serials, q) + 1] && Last(r.db.serials, q) == Last(db.serials, q) + 1
  {
    hide Integrity, InsertTags, TagLinks, SlugTaken, UsernameTaken, EmailTaken, ArticleAt;
  }

  /** Every id handed out in a run is larger than all before it, whatever was deleted or failed in between. */
  lemma {:induction false} IssuedIdsIncrease(db: Db, calls: seq<Call>, q: Sequence)
    requires Integrity(db)
    ensures Rising(Issued(db, calls, q), Last(db.serials, q), Last(Run(db, calls).serials, q))
    decreases |calls|
  {
    hide Apply, Integrity, Evolves, DrawsFrom, Rising;
    if calls == [] {
      NothingRises(Last(db.serials, q));
    } else {
      var m, now := calls[0].mutation, calls[0].now;
      var next := Apply(m, now, db).db;
      ApplyKeepsIntegrity(m, now, db);
      IssuedIdsIncrease(next, calls[1..], q);
      SerialsOnlyGrow(db, m, now);
      RunSerialsOnlyGrow(next, calls[1..]);
      RisingFrom(Issued(next, calls[1..], q), Last(db.serials, q), Last(next.serials, q),
                 Last(Run(next, calls[1..]).serials, q));
      assert [] + Issued(next, calls[1..], q) == Issued(next, calls[1..], q);
      if DrawsFrom(m, q) {
        InsertReturnsTheNextId(m, now, db, q);
      }
    }
  }

  lemma NothingRises(n: int)
    ensures Rising([], n, n)
  {
  }

  lemma RisingFrom(ids: seq<int>, low: int, middle: int, high: int)
    requires Rising(ids, middle, high) && low <= middle <= high
    ensures Rising(ids, low, high)
    ensures low < middle ==> Rising([middle] + ids, low, high)
  {
  }

  lemma SerialsOnlyGrow(db: Db, m: Mutation, now: int)
    requires Integrity(db)
    ensures SerialsGrow(db.serials, Apply(m, now, db).db.serials)
  {
    hide Apply, Integrity;
    ApplyEvolves(m, now, db);
  }

  lemma RunSerialsOnlyGrow(db: Db, calls: seq<Call>)
    requires Integrity(db)
    ensures SerialsGrow(db.serials, Run(db, calls).serials)
  {
    hide Run, Integrity;
    RunEvolves(db, calls);
  }

  /**
   * A successful create gives the new article exactly the requested names, leaves the tags of every other article
   * alone, and no later run changes them while the article is there.
   */
  lemma TagsRoundTrip(db: Db, m: Mutation, now: int, later: seq<Call>)
    requires Integrity(db) && m.AddNewArticle?
    requires !Apply(m, now, db).reply.Error?
    ensures
      var after := Apply(m, now, db).db;
      var id, end := after.serials.articles, Run(after, later);
      && Apply(m, now, db).reply == Ids([id])
      && id in after.tables.articles
      && TagNames(after.tables, id) == (set n | n in m.tagList.GetOr([]))
      && (forall a | a in db.tables.articles :: TagNames(after.tables, a) == TagNames(db.tables, a))
      && (id in end.tables.articles ==> TagNames(end.tables, id) == set n | n in m.tagList.GetOr([]))
  {
    hide Integrity, Run, InsertTags, TagLinks, TagNames, SlugTaken;
    var after := Apply(m, now, db).db;
    var t, s, names := db.tables, db.serials, m.tagList.GetOr([]);
    IntegrityParts(db);
    FreshIds(db);
    InsertTagsFacts(t.tags, s.tags, names);
    hide UsersOk, ArticlesOk, TagsOk, TagTableOk, LinksOk, CommentsOk;
    LinksCarryTheNames(t, s.articles + 1, InsertTags(t.tags, s.tags, names), names, after.tables);
    ApplyKeepsIntegrity(m, now, db);
    RunEvolves(after, later);
  }

  /** The only article a delete can take: at this slug, by this author, with no favorites left. */
  ghost predicate Deletable(t: Tables, slug: string, author: int, a: int) {
    && a in t.articles && t.articles[a].slug == slug && t.articles[a].author == author
    && (forall p | p in t.favorites :: p.1 != a)
  }

  /**
   * delete_article_by_slug has an effect exactly when there is such an article; then that article, its tag links and
   * its comments are gone and nothing else has changed.  It fails exactly when the caller's article has a favorite.
   * In every case but the first the database is as before.
   */
  lemma DeleteIsExact(db: Db, slug: string, author: int)
    requires Integrity(db)
    ensures
      var r, t := DeleteArticle(db, slug, author), db.tables;
      && (r.db != db <==> exists a :: Deletable(t, slug, author, a))
      && (forall a | Deletable(t, slug, author, a) ::
            && r.reply == Void
            && r.db == db.(tables := t.(
                 articles := t.articles - {a},
                 articleTags := (set p | p in t.articleTags && p.0 != a),
                 comments := (map c | c in t.comments && t.comments[c].article != a :: t.comments[c]))))
      && (r.reply.Error? <==> exists p | p in t.favorites :: p.1 in OwnedAt(t, slug, author))
  {
    var r, t := DeleteArticle(db, slug, author), db.tables;
    OwnedIsTheOneAt(db, slug, author);
    var gone := OwnedAt(t, slug, author);
    forall a | Deletable(t, slug, author, a)
      ensures r.reply == Void && r.db.tables == t.(
                articles := t.articles - {a},
                articleTags := (set p | p in t.articleTags && p.0 != a),
                comments := (map c | c in t.comments && t.comments[c].article != a :: t.comments[c]))
      ensures r.db != db
    {
      assert a in gone;
      assert gone == {a};
      assert a !in r.db.tables.articles;
    }
    if r.db != db {
      assert WithoutArticles(t, {}) == t;
      var a :| a in gone;
      forall p | p in t.favorites ensures p.1 != a {
      }
      assert Deletable(t, slug, author, a);
    }
  }

  /** Taking back a follow, or a favorite, that has just succeeded restores the database exactly. */
  lemma UndoRestores(db: Db, follower: int, followed: int, slug: string, user: int)
    requires Integrity(db)
    ensures
      var f := AddFollower(db, follower, followed);
      f.reply == Void ==> RemoveFollower(f.db, follower, followed).db == db
    ensures
      var f := Favorite(db, slug, user);
      f.reply == Void ==> Unfavorite(f.db, slug, user).db == db
  {
    var f := Favorite(db, slug, user);
    if f.reply == Void {
      var a := ArticleAt(db.tables, slug).value;
      assert ArticleAt(f.db.tables, slug) == Some(a);
      assert f.db.tables.favorites - {(user, a)} == db.tables.favorites;
    }
    var g := AddFollower(db, follower, followed);
    if g.reply == Void {
      assert g.db.tables.followers - {(follower, followed)} == db.tables.followers;
    }
  }
}

/** Conservation of favorites and tag links, and why narrowing a count to 32 bits loses nothing on an article page. */
module Counting {
  import opened Prelude
  import opened Schema
  import opened Rows
  import opened Queries
  import opened AbstractStore
  import opened Refinement
  import opened Views
  import opened Listings

  // ---- every favorite is counted on exactly one article ----

  function SumOfCounts(t: Tables, articles: seq<int>): int {
    if articles == [] then 0 else CountFavorites(t, articles[0]) + SumOfCounts(t, articles[1..])
  }

  lemma {:induction false} SumCountsTheirFavorites(t: Tables, articles: seq<int>)
    requires NoDuplicates(articles)
    ensures SumOfCounts(t, articles) == |set p | p in t.favorites && p.1 in articles|
  {
    var all := set p | p in t.favorites && p.1 in articles;
    if articles == [] {
      assert all == {};
    } else {
      var here := set p | p in t.favorites && p.1 == articles[0];
      var rest := set p | p in t.favorites && p.1 in articles[1..];
      SumCountsTheirFavorites(t, articles[1..]);
      assert all == here + rest;
      assert here !! rest;
    }
  }

  /** The counts shown on all article pages add up to the favorites there are. */
  lemma FavoritesAreConserved(db: Db, sc: Scan)
    requires Integrity(db) && ScanOf(sc, db.tables)
    ensures SumOfCounts(db.tables, sc.articles) == |db.tables.favorites|
  {
    var t := db.tables;
    SumCountsTheirFavorites(t, sc.articles);
    forall p | p in t.favorites ensures p.1 in sc.articles {
      var a := p.1;
      assert a in t.articles;
    }
    assert t.favorites == set p | p in t.favorites && p.1 in sc.articles;
  }

  // ---- get_tags ----

  function LinksNamed(t: Tables, links: seq<(int, int)>, name: string): set<(int, int)> {
    set p | p in links && p.1 in t.tags && t.tags[p.1] == name
  }

  lemma OneMoreLink(t: Tables, links: seq<(int, int)>, name: string)
    requires links != [] && NoDuplicates(links) && links[0].1 in t.tags
    ensures |LinksNamed(t, links, name)|
            == |LinksNamed(t, links[1..], name)| + if t.tags[links[0].1] == name then 1 else 0
  {
    var link, rest := links[0], links[1..];
    assert forall p :: p in links <==> p == link || p in rest;
    assert link !in rest;
    assert LinksNamed(t, links, name)
           == if t.tags[link.1] == name then LinksNamed(t, rest, name) + {link} else LinksNamed(t, rest, name);
  }

  lemma {:induction false} TagsPerLink(t: Tables, links: seq<(int, int)>, tags: seq<int>, name: string)
    requires LinksOk(t) && Enumerates(tags, t.tags.Keys)
    requires NoDuplicates(links) && forall p | p in links :: p in t.articleTags
    ensures |GetTags(t, links, tags)| == |links|
    ensures multiset(GetTags(t, links, tags))[name] == |LinksNamed(t, links, name)|
  {
    if links != [] {
      assert links[0] in t.articleTags;
      var g := links[0].1;
      assert g in t.tags;
      TagsPerLink(t, links[1..], tags, name);
      OneTag(t, tags, g);
      OneMoreLink(t, links, name);
      assert GetTags(t, links, tags) == [t.tags[g]] + GetTags(t, links[1..], tags);
    } else {
      assert LinksNamed(t, links, name) == {};
    }
  }

  lemma {:induction false} LinksCountAsArticles(t: Tables, s: Serials, links: set<(int, int)>, n: string)
    requires LinksOk(t) && TagsOk(t, s)
    requires forall p | p in links :: p in t.articleTags && p.1 in t.tags && t.tags[p.1] == n
    ensures |links| == |set p | p in links :: p.0|
  {
    if links != {} {
      var q :| q in links;
      var rest := links - {q};
      LinksCountAsArticles(t, s, rest, n);
      forall p | p in rest ensures p.0 != q.0 {
        var g, h := p.1, q.1;
        assert g in t.tags && h in t.tags;
      }
      assert (set p | p in links :: p.0) == (set p | p in rest :: p.0) + {q.0};
    }
  }

  function Carriers(s: Store, name: string): set<int> {
    set a | a in s.posts && name in s.posts[a].tags
  }

  /** get_tags lists each name once for every article that carries it, and nothing else. */
  lemma TagsAreListedPerCarrier(db: Db, sc: Scan, name: string)
    requires Integrity(db) && ScanOf(sc, db.tables)
    ensures
      var r := GetTags(db.tables, sc.articleTags, sc.tags);
      && |r| == |db.tables.articleTags|
      && multiset(r)[name] == |Carriers(Abstract(db), name)|
  {
    var t := db.tables;
    var links := LinksNamed(t, sc.articleTags, name);
    TagsPerLink(t, sc.articleTags, sc.tags, name);
    ScanLength(sc.articleTags, t.articleTags);
    LinksCountAsArticles(t, db.serials, links, name);
    LinkedArticlesAreCarriers(db, links, name);
  }

  lemma LinkedArticlesAreCarriers(db: Db, links: set<(int, int)>, name: string)
    requires LinksOk(db.tables)
    requires forall p :: p in links <==> p in db.tables.articleTags && p.1 in db.tables.tags
                                         && db.tables.tags[p.1] == name
    ensures (set p | p in links :: p.0) == Carriers(Abstract(db), name)
  {
    var t := db.tables;
    AbstractRows(db);
    forall p | p in links ensures p.0 in Carriers(Abstract(db), name) {
      assert p.0 in t.articles && name in TagNames(t, p.0);
    }
    forall a | a in Carriers(Abstract(db), name) ensures a in set p | p in links :: p.0 {
      var p :| p in t.articleTags && p.0 == a && p.1 in t.tags && t.tags[p.1] == name;
      assert p in links;
    }
  }

  // ---- narrowing ----

  lemma NarrowingIsLosslessIff(n: int)
    requires 0 <= n
    ensures NarrowToInt32(n) == n <==> n <= MAX_INT32
  {
  }

  /** The row a parsed article came from, given the id that parsing leaves behind. */
  function Unparsed(d: ArticleDto, id: int): ArticleView {
    ArticleView(id, d.title, d.slug, d.description, d.body, d.createdAt, d.updatedAt, d.tagList, d.favorited,
                d.favoritesCount, d.author)
  }

  /** Parsing a row loses its id and nothing else exactly when its count fits in 32 bits. */
  lemma ParsingIsReversibleIff(v: ArticleView)
    ensures Unparsed(ParseArticle(v), v.articleId) == v <==> -MAX_INT32 - 1 <= v.favoritesCount <= MAX_INT32
    ensures (ParseArticle(v).favoritesCount - v.favoritesCount) % 0x1_0000_0000 == 0
  {
  }

  /** No article has more fans than there are users, and no more users than 32-bit ids exist. */
  lemma FansAreBounded(db: Db, a: int)
    requires Integrity(db)
    ensures |Fans(db.tables, a)| <= |db.tables.users| <= MAX_INT32
  {
    FansAreFavorites(db.tables);
    forall u | u in Fans(db.tables, a) ensures u in db.tables.users.Keys {
      var p := (u, a);
      assert p in db.tables.favorites && p.0 in db.tables.users;
    }
    SubsetIsNoLarger(Fans(db.tables, a), db.tables.users.Keys);
    Pigeonhole(db.tables.users.Keys, db.serials.users);
    assert |db.tables.users| == |db.tables.users.Keys|;
  }

  /** On an article page and in the article list the 32-bit count is the number of fans. */
  lemma NarrowedCountsAreExact(db: Db, sc: Scan, v: ArticleView, viewer: Option<int>, f: Filters)
    requires Integrity(db) && ScanOf(sc, db.tables)
    requires v in GetArticle(db.tables, sc, v.articleId, viewer) || v in ListAll(db.tables, sc, f, viewer)
    ensures v.articleId in Abstract(db).posts
    ensures ParseArticle(v).favoritesCount == |Abstract(db).posts[v.articleId].fans|
  {
    AuthorsExist(db);
    AbstractRows(db);
    ArticlesAgree(db, sc, v.articleId, viewer);
    ListIsListing(db, sc, f, viewer);
    if v in ListAll(db.tables, sc, f, viewer) {
      assert v in Listed(Abstract(db), f, viewer);
    }
    FansAreBounded(db, v.articleId);
    NarrowingIsLosslessIff(|Fans(db.tables, v.articleId)|);
  }

  /**
   * A feed row shows the number of all favorites, so it agrees with the article's own page exactly when no other
   * article has a favorite; and narrowing it is lossless exactly when all favorites together fit in 32 bits.
   */
  lemma FeedCountsAreExactIff(db: Db, sc: Scan, user: int, v: ArticleView)
    requires Integrity(db) && ScanOf(sc, db.tables) && v in FeedAll(db.tables, sc, user)
    ensures v.articleId in Abstract(db).posts
    ensures v.favoritesCount == |Abstract(db).posts[v.articleId].fans|
            <==> forall a | a in Abstract(db).posts && a != v.articleId :: Abstract(db).posts[a].fans == {}
    ensures ParseArticle(v).favoritesCount == |db.tables.favorites| <==> |db.tables.favorites| <= MAX_INT32
  {
    var t, a := db.tables, v.articleId;
    AbstractRows(db);
    FeedIsListing(db, sc, user);
    assert v in Feed(Abstract(db), user, |t.favorites|);
    NarrowingIsLosslessIff(|t.favorites|);
    AllFavoritesAreHereIff(db, a);
    assert forall b | b in t.articles :: Abstract(db).posts[b].fans == Fans(t, b);
  }

  /**
   * A row of the list always says "not favorited", so it is the article's own page for this viewer exactly when there
   * is no viewer or the viewer is not a fan.
   */
  lemma ListRowIsThePageIff(db: Db, sc: Scan, f: Filters, viewer: Option<int>, v: ArticleView)
    requires Integrity(db) && ScanOf(sc, db.tables) && v in ListAll(db.tables, sc, f, viewer)
    ensures
      var s, a := Abstract(db), v.articleId;
      && a in s.posts && s.posts[a].row.author in s.users
      && (v == ViewOf(s, a, viewer) <==> viewer.None? || viewer.value !in s.posts[a].fans)
  {
    AuthorsExist(db);
    ListIsListing(db, sc, f, viewer);
    hide Abstract, Integrity, SortedNames;
    assert v in Listed(Abstract(db), f, viewer);
  }

  /** A feed row is the article's own page exactly when the caller is not a fan and no other article has one. */
  lemma FeedRowIsThePageIff(db: Db, sc: Scan, user: int, v: ArticleView)
    requires Integrity(db) && ScanOf(sc, db.tables) && v in FeedAll(db.tables, sc, user)
    ensures
      var s, a := Abstract(db), v.articleId;
      && a in s.posts && s.posts[a].row.author in s.users
      && (v == ViewOf(s, a, Some(user))
          <==> && user !in s.posts[a].fans
               && (forall b | b in s.posts && b != a :: s.posts[b].fans == {}))
  {
    AuthorsExist(db);
    FeedIsListing(db, sc, user);
    FeedCountsAreExactIff(db, sc, user, v);
    hide Abstract, Integrity, SortedNames;
    assert v in Feed(Abstract(db), user, |db.tables.favorites|);
  }

  lemma AllFavoritesAreHereIff(db: Db, a: int)
    requires Integrity(db) && a in db.tables.articles
    ensures |db.tables.favorites| == |Fans(db.tables, a)|
            <==> forall b | b in db.tables.articles && b != a :: Fans(db.tables, b) == {}
  {
    var t := db.tables;
    CountIsFans(t, a);
    FansAreFavorites(t);
    var own := set p | p in t.favorites && p.1 == a;
    SubsetIsNoLarger(own, t.favorites);
    if own == t.favorites {
      forall b | b in t.articles && b != a ensures Fans(t, b) == {} {
        forall u ensures u !in Fans(t, b) {
          var p := (u, b);
          assert p !in own;
        }
      }
    } else {
      var p :| p in t.favorites && p !in own;
      var u, b := p.0, p.1;
      assert p == (u, b) && b in t.articles;
      assert u in Fans(t, b);
    }
  }
}

/** The article list and the feed: what they should contain, and that the queries return exactly that. */
module Listings {
  import opened Prelude
  import opened Schema
  import opened Rows
  import opened Queries
  import opened AbstractStore
  import opened Refinement
  import opened Views

  // ---- what the list and the feed should contain ----

  predicate Matches(s: Store, f: Filters, a: int)
    requires a in s.posts && s.posts[a].row.author in s.users
  {
    var p := s.posts[a];
    && (f.tag.None? || f.tag.value in p.tags)
    && (f.author.None? || SameName(s.users[p.row.author].username, f.author.value))
    && (f.favoritedBy.None? || exists u | u in p.fans && u in s.users ::
                                 SameName(s.users[u].username, f.favoritedBy.value))
  }

  ghost predicate HasAuthors(s: Store) {
    forall a | a in s.posts :: s.posts[a].row.author in s.users
  }

  /**
   * The row the list shows for each article it contains, under the article's id.  Both listings leave the viewer out
   * of `favorited`.
   */
  ghost function ListChoice(s: Store, f: Filters, viewer: Option<int>): map<int, ArticleView>
    requires HasAuthors(s)
  {
    map a | a in s.posts && Matches(s, f, a) :: ViewOf(s, a, viewer).(favorited := false)
  }

  /** In the feed every article shows the number of all favorites in the store. */
  ghost function FeedChoice(s: Store, user: int, allFavorites: int): map<int, ArticleView>
    requires HasAuthors(s)
  {
    map a | a in s.posts && (user, s.posts[a].row.author) in s.follows ::
      ViewOf(s, a, Some(user)).(favorited := false, favoritesCount := allFavorites)
  }

  function RowsIn(chosen: map<int, ArticleView>): set<ArticleView> {
    set a | a in chosen :: chosen[a]
  }

  ghost function Listed(s: Store, f: Filters, viewer: Option<int>): set<ArticleView>
    requires HasAuthors(s)
  {
    RowsIn(ListChoice(s, f, viewer))
  }

  ghost function Feed(s: Store, user: int, allFavorites: int): set<ArticleView>
    requires HasAuthors(s)
  {
    RowsIn(FeedChoice(s, user, allFavorites))
  }

  /** Exactly these rows, each once, newest first. */
  ghost predicate IsListingOf(full: seq<ArticleView>, rows: set<ArticleView>) {
    Enumerates(full, rows) && SortedBy(NewerFirst, full)
  }

  // ---- the WHERE clause means the filter ----

  lemma TagFilterAgrees(t: Tables, a: int, tag: string)
    ensures CarriesTag(t, a, tag) <==> tag in TagNames(t, a)
  {
    if tag in TagNames(t, a) {
      var p :| p in t.articleTags && p.0 == a && p.1 in t.tags && t.tags[p.1] == tag;
      var g := p.1;
      assert g in t.tags;
    }
  }

  lemma FavoriteFilterAgrees(t: Tables, a: int, name: string)
    ensures FavoritedByName(t, a, name) <==>
            exists u | u in Fans(t, a) && u in t.users :: SameName(t.users[u].username, name)
  {
    FansAreFavorites(t);
    if u :| u in Fans(t, a) && u in t.users && SameName(t.users[u].username, name) {
      var p := (u, a);
      assert p in t.favorites && p.0 == u;
    }
  }

  lemma WhereMeansMatches(db: Db, f: Filters, a: int)
    requires Integrity(db) && a in db.tables.articles
    ensures HasAuthors(Abstract(db))
    ensures Selected(db.tables, f, a, db.tables.articles[a].author) <==> Matches(Abstract(db), f, a)
  {
    AuthorsExist(db);
    AbstractRows(db);
    if f.tag.Some? {
      TagFilterAgrees(db.tables, a, f.tag.value);
    }
    if f.favoritedBy.Some? {
      FavoriteFilterAgrees(db.tables, a, f.favoritedBy.value);
    }
  }

  // ---- chosen rows, in the order of a scan ----

  predicate ById(chosen: map<int, ArticleView>) {
    forall a | a in chosen :: chosen[a].articleId == a
  }

  function RowOf(chosen: map<int, ArticleView>, a: int): seq<ArticleView> {
    if a in chosen then [chosen[a]] else []
  }

  function RowsFor(chosen: map<int, ArticleView>, articles: seq<int>): seq<ArticleView> {
    if articles == [] then []
    else RowOf(chosen, articles[0]) + RowsFor(chosen, articles[1..])
  }

  lemma {:induction false} RowsForFacts(chosen: map<int, ArticleView>, articles: seq<int>)
    requires ById(chosen) && NoDuplicates(articles)
    ensures
      var r := RowsFor(chosen, articles);
      && NoDuplicates(r)
      && (forall v :: v in r <==> v.articleId in articles && v.articleId in chosen && v == chosen[v.articleId])
  {
    if articles != [] {
      RowsForFacts(chosen, articles[1..]);
      assert forall x :: x in articles <==> x == articles[0] || x in articles[1..];
    }
  }

  lemma RowsEnumerate(chosen: map<int, ArticleView>, articles: seq<int>, keys: set<int>)
    requires ById(chosen) && chosen.Keys <= keys && Enumerates(articles, keys)
    ensures Enumerates(RowsFor(chosen, articles), RowsIn(chosen))
  {
    RowsForFacts(chosen, articles);
    assert forall a | a in chosen :: a in articles;
  }

  lemma SortingGivesListing(rows: seq<ArticleView>, expected: set<ArticleView>)
    requires Enumerates(rows, expected)
    ensures IsListingOf(OrderBy(NewerFirst, rows), expected)
  {
    var full := OrderBy(NewerFirst, rows);
    OrderBySorts(NewerFirst, rows);
    SameElements(full, rows);
    PermutationKeepsNoDuplicates(rows, full);
  }

  // ---- the list: its joins neither drop nor repeat an article ----

  /** What an article shows when the WHERE clause lets it through. */
  lemma ChosenRow(db: Db, sc: Scan, f: Filters, viewer: Option<int>, a: int)
    requires Integrity(db) && ScanOf(sc, db.tables) && a in db.tables.articles
    ensures HasAuthors(Abstract(db)) && db.tables.articles[a].author in db.tables.users
    ensures
      var t, chosen := db.tables, ListChoice(Abstract(db), f, viewer);
      && (Selected(t, f, a, t.articles[a].author) <==> a in chosen)
      && (a in chosen ==>
            PerProfile(t, a, GetArticleTagList(t, sc, a), IsFavorited(t, a, None), CountFavorites(t, a),
                       GetProfile(t, sc.users, t.articles[a].author, viewer)) == [chosen[a]])
  {
    hide Selected, Matches, GetArticleTagList, IsFavorited, CountFavorites, GetProfile, Fans;
    AuthorsExist(db);
    AbstractRows(db);
    WhereMeansMatches(db, f, a);
    FavoritedIsMembership(db.tables, a, None);
    CountIsFans(db.tables, a);
    OneRow(db, sc, a, viewer, IsFavorited(db.tables, a, None), CountFavorites(db.tables, a));
  }

  lemma {:induction false} JoinGivesOneRow(
      db: Db, sc: Scan, f: Filters, viewer: Option<int>, a: int, users: seq<int>)
    requires Integrity(db) && ScanOf(sc, db.tables) && a in db.tables.articles
    requires Within(users, db.tables.users.Keys) && NoDuplicates(users)
    ensures HasAuthors(Abstract(db))
    ensures
      var chosen := ListChoice(Abstract(db), f, viewer);
      JoinAuthors(db.tables, sc, f, viewer, a, users)
      == if db.tables.articles[a].author in users && a in chosen then [chosen[a]] else []
  {
    hide Integrity, Abstract, HasAuthors, ListChoice, Selected, PerProfile, IsFavorited, CountFavorites, GetProfile;
    hide GetArticleTagList;
    ChosenRow(db, sc, f, viewer, a);
    if users != [] {
      JoinGivesOneRow(db, sc, f, viewer, a, users[1..]);
      assert forall u :: u in users <==> u == users[0] || u in users[1..];
    }
  }

  lemma {:induction false} ListRowsAgree(db: Db, sc: Scan, f: Filters, viewer: Option<int>, articles: seq<int>)
    requires Integrity(db) && ScanOf(sc, db.tables) && Within(articles, db.tables.articles.Keys)
    ensures HasAuthors(Abstract(db))
    ensures
      ListRows(db.tables, sc, f, viewer, articles) == RowsFor(ListChoice(Abstract(db), f, viewer), articles)
  {
    hide ListChoice, JoinAuthors, Abstract;
    AuthorsExist(db);
    if articles != [] {
      var a := articles[0];
      JoinGivesOneRow(db, sc, f, viewer, a, sc.users);
      assert db.tables.articles[a].author in sc.users;
      ListRowsAgree(db, sc, f, viewer, articles[1..]);
    }
  }

  lemma ListChoiceById(db: Db, f: Filters, viewer: Option<int>)
    requires HasAuthors(Abstract(db))
    ensures
      var chosen := ListChoice(Abstract(db), f, viewer);
      ById(chosen) && chosen.Keys <= db.tables.articles.Keys
  {
    AbstractRows(db);
  }

  /** The list is the matching articles, each once with its page, newest first. */
  lemma ListIsListing(db: Db, sc: Scan, f: Filters, viewer: Option<int>)
    requires Integrity(db) && ScanOf(sc, db.tables)
    ensures HasAuthors(Abstract(db))
    ensures IsListingOf(ListAll(db.tables, sc, f, viewer), Listed(Abstract(db), f, viewer))
  {
    hide Integrity, Abstract, HasAuthors, ListChoice, IsListingOf, ListRows, RowsFor;
    ListRowsAgree(db, sc, f, viewer, sc.articles);
    ListChoiceById(db, f, viewer);
    var chosen := ListChoice(Abstract(db), f, viewer);
    RowsEnumerate(chosen, sc.articles, db.tables.articles.Keys);
    SortingGivesListing(RowsFor(chosen, sc.articles), RowsIn(chosen));
  }

  /** get_articles_with_author_profile: filter, then newest first, then slice, with 20 rows unless told otherwise. */
  lemma ListIsFilterSortSlice(db: Db, sc: Scan, f: Filters, viewer: Option<int>, limit: Option<int>,
                              offset: Option<int>)
    requires Integrity(db) && ScanOf(sc, db.tables)
    ensures HasAuthors(Abstract(db))
    ensures
      exists full ::
        && IsListingOf(full, Listed(Abstract(db), f, viewer))
        && GetArticles(db.tables, sc, f, viewer, limit, offset) == Window(full, Some(limit.GetOr(20)), offset.GetOr(0))
  {
    ListIsListing(db, sc, f, viewer);
  }

  // ---- the feed ----

  lemma CountInFeedIsAll(t: Tables, a: int)
    ensures CountFavoritesInFeed(t, a) == |t.favorites|
  {
    assert t.favorites == set p | p in t.favorites && p.1 == p.1;
  }

  lemma FollowedByMeansFollows(t: Tables, user: int, author: int)
    ensures FollowedBy(t, user, author) <==> (user, author) in t.followers
  {
    var q := (user, author);
    assert q in t.followers ==> q.0 == user && q.1 == author;
  }

  lemma FeedGivesOneRow(db: Db, sc: Scan, user: int, a: int)
    requires Integrity(db) && ScanOf(sc, db.tables) && a in db.tables.articles
    ensures HasAuthors(Abstract(db))
    ensures
      var chosen := FeedChoice(Abstract(db), user, |db.tables.favorites|);
      FeedRowsOf(db.tables, sc, user, a) == if a in chosen then [chosen[a]] else []
  {
    AuthorsExist(db);
    AbstractRows(db);
    FollowedByMeansFollows(db.tables, user, db.tables.articles[a].author);
    CountInFeedIsAll(db.tables, a);
    FavoritedIsMembership(db.tables, a, None);
    OneRow(db, sc, a, Some(user), IsFavorited(db.tables, a, None), CountFavoritesInFeed(db.tables, a));
  }

  lemma {:induction false} FeedRowsAgree(db: Db, sc: Scan, user: int, articles: seq<int>)
    requires Integrity(db) && ScanOf(sc, db.tables) && Within(articles, db.tables.articles.Keys)
    ensures HasAuthors(Abstract(db))
    ensures
      FeedRows(db.tables, sc, user, articles)
      == RowsFor(FeedChoice(Abstract(db), user, |db.tables.favorites|), articles)
  {
    hide FeedChoice, FeedRowsOf, Abstract;
    AuthorsExist(db);
    if articles != [] {
      FeedGivesOneRow(db, sc, user, articles[0]);
      FeedRowsAgree(db, sc, user, articles[1..]);
    }
  }

  lemma FeedChoiceById(db: Db, user: int, all: int)
    requires HasAuthors(Abstract(db))
    ensures
      var chosen := FeedChoice(Abstract(db), user, all);
      ById(chosen) && chosen.Keys <= db.tables.articles.Keys
  {
    AbstractRows(db);
  }

  /** The feed is the articles by authors the caller follows, each once, newest first. */
  lemma FeedIsListing(db: Db, sc: Scan, user: int)
    requires Integrity(db) && ScanOf(sc, db.tables)
    ensures HasAuthors(Abstract(db))
    ensures IsListingOf(FeedAll(db.tables, sc, user), Feed(Abstract(db), user, |db.tables.favorites|))
  {
    hide Integrity, Abstract, HasAuthors, FeedChoice, IsListingOf, FeedRows, RowsFor;
    FeedRowsAgree(db, sc, user, sc.articles);
    FeedChoiceById(db, user, |db.tables.favorites|);
    var chosen := FeedChoice(Abstract(db), user, |db.tables.favorites|);
    RowsEnumerate(chosen, sc.articles, db.tables.articles.Keys);
    SortingGivesListing(RowsFor(chosen, sc.articles), RowsIn(chosen));
  }

  /**
   * get_feed as the handler calls it: the feed, sliced; an absent limit means all of it.  As the subquery is written
   * every row shows the total number of favorites.
   */
  lemma FeedIsFilterSortSlice(db: Db, sc: Scan, user: int, limit: Option<int>, offset: Option<int>)
    requires Integrity(db) && ScanOf(sc, db.tables)
    ensures HasAuthors(Abstract(db))
    ensures
      exists full ::
        && IsListingOf(full, Feed(Abstract(db), user, |db.tables.favorites|))
        && GetFeed(db.tables, sc, user, limit, offset) == Window(full, limit, offset.GetOr(0))
        && GetFeed(db.tables, sc, user, None, None) == Page(full)
  {
    var full := FeedAll(db.tables, sc, user);
    FeedIsListing(db, sc, user);
    assert GetFeed(db.tables, sc, user, None, None) == Page(full);
  }
}

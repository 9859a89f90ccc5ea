/** What the answers to reads show, column by column of the tables. */
module Showing {
  import opened Prelude
  import opened Text
  import opened Schema
  import opened Rows
  import opened Queries
  import opened AbstractStore
  import opened Refinement
  import opened Views
  import opened Listings
  import opened Paging
  import opened Counting
  import opened Columns

  // ---- profiles ----

  ghost predicate ShowsProfile(t: Tables, u: int, viewer: Option<int>, p: Profile) {
    && u in t.users
    && p.username == t.users[u].username
    && p.bio == t.users[u].bio
    && p.image == t.users[u].image
    && (p.following <==> viewer.Some? && (viewer.value, u) in t.followers)
  }

  lemma ProfileByColumns(db: Db, u: int, viewer: Option<int>)
    requires u in db.tables.users
    ensures u in Abstract(db).users && ShowsProfile(db.tables, u, viewer, ProfileOf(Abstract(db), u, viewer))
  {
  }

  // ---- articles ----

  /** The columns that the page of an article, the list and the feed show alike. */
  ghost predicate ShowsText(t: Tables, a: int, viewer: Option<int>, d: ArticleDto) {
    && a in t.articles
    && d.slug == t.articles[a].slug
    && d.title == t.articles[a].title
    && d.description == t.articles[a].description
    && d.body == t.articles[a].body
    && d.createdAt == t.articles[a].createdAt
    && d.updatedAt == t.articles[a].updatedAt
    && (forall name :: name in d.tagList <==> Tagged(t, a, name))
    && (forall i, j | 0 <= i < j < |d.tagList| :: Collates(d.tagList[i], d.tagList[j]) && d.tagList[i] != d.tagList[j])
    && ShowsProfile(t, t.articles[a].author, viewer, d.author)
  }

  function FavoringUsers(t: Tables, a: int): set<int> {
    set u | u in t.users && (u, a) in t.favorites
  }

  /** A page counts the users who favor the article and says whether the viewer is one. */
  ghost predicate ShowsPage(t: Tables, a: int, viewer: Option<int>, d: ArticleDto) {
    && ShowsText(t, a, viewer, d)
    && d.favoritesCount == |FavoringUsers(t, a)|
    && (d.favorited <==> viewer.Some? && (viewer.value, a) in t.favorites)
  }

  ghost predicate ShowsInList(t: Tables, a: int, viewer: Option<int>, d: ArticleDto) {
    ShowsText(t, a, viewer, d) && d.favoritesCount == |FavoringUsers(t, a)| && !d.favorited
  }

  /** The count of a feed row is the number of all favorites, in 32 bits. */
  ghost predicate ShowsInFeed(t: Tables, a: int, user: int, d: ArticleDto) {
    && ShowsText(t, a, Some(user), d) && !d.favorited
    && (|t.favorites| <= 0x7fff_ffff ==> d.favoritesCount == |t.favorites|)
  }

  lemma TagNamesAreTagged(t: Tables, a: int)
    ensures forall name :: name in TagNames(t, a) <==> Tagged(t, a, name)
  {
    forall name ensures name in TagNames(t, a) <==> Tagged(t, a, name) {
      if name in TagNames(t, a) {
        var p :| p in t.articleTags && p.0 == a && p.1 in t.tags && t.tags[p.1] == name;
        var g := p.1;
        assert p == (a, g) && g in t.tags;
      }
      if Tagged(t, a, name) {
        var g :| g in t.tags && t.tags[g] == name && (a, g) in t.articleTags;
        var p := (a, g);
        assert p in t.articleTags && p.1 in t.tags;
      }
    }
  }

  lemma FansAreFavoring(db: Db, a: int)
    requires Integrity(db)
    ensures Fans(db.tables, a) == FavoringUsers(db.tables, a)
  {
    FansAreFavorites(db.tables);
    forall u | (u, a) in db.tables.favorites ensures u in db.tables.users {
      var p := (u, a);
      assert p.0 in db.tables.users;
    }
    hide Fans;
  }

  lemma NamesInOrder(names: set<string>)
    ensures
      var list := SortedNames(names);
      && (forall name :: name in list <==> name in names)
      && (forall i, j | 0 <= i < j < |list| :: Collates(list[i], list[j]) && list[i] != list[j])
  {
    var list := SortedNames(names);
    hide SortedNames;
    forall i, j | 0 <= i < j < |list| ensures Collates(list[i], list[j]) && list[i] != list[j] {
      assert StrictlyBefore(list[i], list[j]);
    }
  }

  lemma TextByColumns(db: Db, a: int, viewer: Option<int>, v: ArticleView)
    requires Integrity(db) && a in db.tables.articles
    requires Abstract(db).posts[a].row.author in Abstract(db).users
    requires
      var page := ViewOf(Abstract(db), a, viewer);
      v == page.(favorited := v.favorited, favoritesCount := v.favoritesCount)
    ensures ShowsText(db.tables, a, viewer, ParseArticle(v))
  {
    AbstractRows(db);
    AbstractParts(db, Abstract(db));
    hide Integrity, Abstract, TagNames, Tagged, ProfileOf, ShowsProfile, SortedNames, NarrowToInt32;
    TagNamesAreTagged(db.tables, a);
    ProfileByColumns(db, db.tables.articles[a].author, viewer);
    NamesInOrder(TagNames(db.tables, a));
  }

  lemma PageByColumns(db: Db, a: int, viewer: Option<int>)
    requires Integrity(db) && a in db.tables.articles
    ensures a in Abstract(db).posts && Abstract(db).posts[a].row.author in Abstract(db).users
    ensures ShowsPage(db.tables, a, viewer, ParseArticle(ViewOf(Abstract(db), a, viewer)))
  {
    AuthorsExist(db);
    AbstractRows(db);
    hide Integrity, Abstract, SortedNames, ShowsText, FavoringUsers, Fans;
    var v := ViewOf(Abstract(db), a, viewer);
    TextByColumns(db, a, viewer, v);
    FansAreFavorites(db.tables);
    FansAreFavoring(db, a);
    FansAreBounded(db, a);
    NarrowingIsLosslessIff(|Fans(db.tables, a)|);
  }

  lemma ListRowByColumns(db: Db, f: Filters, viewer: Option<int>, a: int)
    requires Integrity(db) && HasAuthors(Abstract(db)) && a in ListChoice(Abstract(db), f, viewer)
    ensures ShowsInList(db.tables, a, viewer, ParseArticle(ListChoice(Abstract(db), f, viewer)[a]))
  {
    AbstractRows(db);
    hide Integrity, Abstract, SortedNames, ShowsText, FavoringUsers, Fans, Matches;
    TextByColumns(db, a, viewer, ListChoice(Abstract(db), f, viewer)[a]);
    FansAreFavoring(db, a);
    FansAreBounded(db, a);
    NarrowingIsLosslessIff(|Fans(db.tables, a)|);
  }

  lemma FeedRowByColumns(db: Db, user: int, a: int)
    requires Integrity(db) && HasAuthors(Abstract(db)) && a in FeedChoice(Abstract(db), user, |db.tables.favorites|)
    ensures
      ShowsInFeed(db.tables, a, user, ParseArticle(FeedChoice(Abstract(db), user, |db.tables.favorites|)[a]))
  {
    AbstractRows(db);
    hide Integrity, Abstract, SortedNames, ShowsText;
    TextByColumns(db, a, Some(user), FeedChoice(Abstract(db), user, |db.tables.favorites|)[a]);
    NarrowingIsLosslessIff(|db.tables.favorites|);
  }

  // ---- the list and the feed ----

  ghost predicate InList(t: Tables, f: Filters, a: int) {
    && a in t.articles && t.articles[a].author in t.users
    && (f.tag.Some? ==> Tagged(t, a, f.tag.value))
    && (f.author.Some? ==> FoldCase(t.users[t.articles[a].author].username) == FoldCase(f.author.value))
    && (f.favoritedBy.Some? ==>
          exists u :: u in t.users && FoldCase(t.users[u].username) == FoldCase(f.favoritedBy.value)
                      && (u, a) in t.favorites)
  }

  ghost predicate InFeed(t: Tables, user: int, a: int) {
    a in t.articles && (user, t.articles[a].author) in t.followers
  }

  lemma ChosenIffInList(db: Db, f: Filters, viewer: Option<int>, a: int)
    requires Integrity(db) && HasAuthors(Abstract(db))
    ensures a in ListChoice(Abstract(db), f, viewer) <==> InList(db.tables, f, a)
  {
    AbstractRows(db);
    AbstractParts(db, Abstract(db));
    var s, t := Abstract(db), db.tables;
    hide Integrity, Abstract, TagNames, Tagged, Fans;
    if a in t.articles {
      assert t.articles[a].author in t.users by {
        assert s.posts[a].row.author in s.users;
      }
      TagNamesAreTagged(t, a);
      FansAreFavorites(t);
      FanNamed(t, a, if f.favoritedBy.Some? then f.favoritedBy.value else "");
    }
  }

  lemma FanNamed(t: Tables, a: int, name: string)
    ensures (exists u | u in Fans(t, a) && u in t.users :: SameName(t.users[u].username, name))
            <==> exists u :: u in t.users && FoldCase(t.users[u].username) == FoldCase(name) && (u, a) in t.favorites
  {
    FansAreFavorites(t);
    hide Fans;
  }

  lemma ChosenIffInFeed(db: Db, user: int, all: int, a: int)
    requires HasAuthors(Abstract(db))
    ensures a in FeedChoice(Abstract(db), user, all) <==> InFeed(db.tables, user, a)
  {
    AbstractRows(db);
  }

  /** Ids in the order of a listing: newest first, each once. */
  ghost predicate NewestFirst(t: Tables, ids: seq<int>) {
    && (forall i | 0 <= i < |ids| :: ids[i] in t.articles)
    && (forall i, j | 0 <= i < j < |ids| :: ids[i] != ids[j])
    && (forall i, j | 0 <= i < j < |ids| :: t.articles[ids[i]].createdAt >= t.articles[ids[j]].createdAt)
  }

  /** How many of n rows come after `offset`, at most `limit` of them if there is a limit. */
  function RowsOnPage(n: nat, limit: Option<int>, offset: int): int {
    var left := if offset < n then n - offset else 0;
    if limit.Some? && limit.value < left then limit.value else left
  }

  ghost predicate ListsAs(t: Tables, f: Filters, viewer: Option<int>, most: int, start: int, rows: seq<ArticleDto>,
                          ids: seq<int>)
  {
    && NewestFirst(t, ids) && (forall a :: a in ids <==> InList(t, f, a))
    && |rows| == RowsOnPage(|ids|, Some(most), start)
    && (forall i | 0 <= i < |rows| :: 0 <= start + i < |ids| && ShowsInList(t, ids[start + i], viewer, rows[i]))
  }

  /**
   * The list: all its articles newest first, of which the page starts at the offset, or 0, and has at most 20 rows
   * unless told otherwise.
   */
  ghost predicate IsListPage(t: Tables, f: Filters, viewer: Option<int>, limit: Option<int>, offset: Option<int>,
                             answer: Page<ArticleDto>)
  {
    var start := if offset.Some? then offset.value else 0;
    var most := if limit.Some? then limit.value else 20;
    if start < 0 || most < 0 then answer == BadBounds
    else answer.Page? && exists ids :: ListsAs(t, f, viewer, most, start, answer.rows, ids)
  }

  ghost predicate FeedsAs(t: Tables, user: int, limit: Option<int>, start: int, rows: seq<ArticleDto>, ids: seq<int>) {
    && NewestFirst(t, ids) && (forall a :: a in ids <==> InFeed(t, user, a))
    && |rows| == RowsOnPage(|ids|, limit, start)
    && (forall i | 0 <= i < |rows| :: 0 <= start + i < |ids| && ShowsInFeed(t, ids[start + i], user, rows[i]))
  }

  /** The feed: the same over the articles of followed authors, with no limit unless there is one. */
  ghost predicate IsFeedPage(t: Tables, user: int, limit: Option<int>, offset: Option<int>, answer: Page<ArticleDto>) {
    var start := if offset.Some? then offset.value else 0;
    if start < 0 || (limit.Some? && limit.value < 0) then answer == BadBounds
    else answer.Page? && exists ids :: FeedsAs(t, user, limit, start, answer.rows, ids)
  }

  lemma ListingOrder(t: Tables, chosen: map<int, ArticleView>, full: seq<ArticleView>)
    requires ById(chosen) && IsListingOf(full, RowsIn(chosen)) && chosen.Keys <= t.articles.Keys
    requires forall a | a in chosen :: chosen[a].createdAt == t.articles[a].createdAt
    ensures NewestFirst(t, IdsOf(full)) && (forall a :: a in IdsOf(full) <==> a in chosen)
    ensures forall i | 0 <= i < |full| :: IdsOf(full)[i] in chosen && full[i] == chosen[IdsOf(full)[i]]
  {
    IdsOfListing(chosen, full);
    forall i | 0 <= i < |full| ensures full[i].articleId in chosen && full[i] == chosen[full[i].articleId] {
      assert full[i] in RowsIn(chosen);
    }
    forall i, j | 0 <= i < j < |full| ensures full[i].createdAt >= full[j].createdAt {
      assert NewerFirst(full[i], full[j]);
    }
  }

  /** The rows of an answer are those of a window, parsed in order. */
  predicate ParsedInOrder(page: Page<ArticleView>, answer: Page<ArticleDto>) {
    match page
    case BadBounds => answer.BadBounds?
    case Page(rows) =>
      && answer.Page? && |answer.rows| == |rows|
      && forall i | 0 <= i < |rows| :: answer.rows[i] == ParseArticle(rows[i])
  }

  lemma WindowInOrder(full: seq<ArticleView>, limit: Option<int>, start: int, answer: Page<ArticleDto>)
    requires ParsedInOrder(Window(full, limit, start), answer)
    ensures answer == BadBounds <==> start < 0 || (limit.Some? && limit.value < 0)
    ensures
      answer.Page? ==>
        && |answer.rows| == RowsOnPage(|full|, limit, start)
        && start >= 0 && (answer.rows != [] ==> start + |answer.rows| <= |full|)
        && (forall i | 0 <= i < |answer.rows| :: answer.rows[i] == ParseArticle(full[start + i]))
  {
    hide Window, ParseArticle;
    WindowByIndex(full, limit, start);
  }

  lemma ListByColumns(db: Db, f: Filters, viewer: Option<int>, full: seq<ArticleView>)
    requires Integrity(db) && HasAuthors(Abstract(db)) && IsListingOf(full, Listed(Abstract(db), f, viewer))
    ensures NewestFirst(db.tables, IdsOf(full)) && (forall a :: a in IdsOf(full) <==> InList(db.tables, f, a))
    ensures forall i | 0 <= i < |full| :: ShowsInList(db.tables, IdsOf(full)[i], viewer, ParseArticle(full[i]))
  {
    var chosen, t := ListChoice(Abstract(db), f, viewer), db.tables;
    ListChoiceById(db, f, viewer);
    forall a | a in chosen ensures chosen[a].createdAt == t.articles[a].createdAt {
      AbstractRows(db);
    }
    hide Integrity, Abstract, HasAuthors, ListChoice, ParseArticle, ShowsInList, InList, IsListingOf, NewestFirst;
    ListingOrder(t, chosen, full);
    forall a ensures a in IdsOf(full) <==> InList(t, f, a) {
      ChosenIffInList(db, f, viewer, a);
    }
    forall i | 0 <= i < |full| ensures ShowsInList(t, IdsOf(full)[i], viewer, ParseArticle(full[i])) {
      ListRowByColumns(db, f, viewer, IdsOf(full)[i]);
    }
  }

  lemma FeedByColumns(db: Db, user: int, full: seq<ArticleView>)
    requires Integrity(db) && HasAuthors(Abstract(db))
    requires IsListingOf(full, Feed(Abstract(db), user, |db.tables.favorites|))
    ensures NewestFirst(db.tables, IdsOf(full)) && (forall a :: a in IdsOf(full) <==> InFeed(db.tables, user, a))
    ensures forall i | 0 <= i < |full| :: ShowsInFeed(db.tables, IdsOf(full)[i], user, ParseArticle(full[i]))
  {
    var chosen, t := FeedChoice(Abstract(db), user, |db.tables.favorites|), db.tables;
    FeedChoiceById(db, user, |t.favorites|);
    forall a | a in chosen ensures chosen[a].createdAt == t.articles[a].createdAt {
      AbstractRows(db);
    }
    hide Integrity, Abstract, HasAuthors, FeedChoice, ParseArticle, ShowsInFeed, InFeed, IsListingOf, NewestFirst;
    ListingOrder(t, chosen, full);
    forall a ensures a in IdsOf(full) <==> InFeed(t, user, a) {
      ChosenIffInFeed(db, user, |t.favorites|, a);
    }
    forall i | 0 <= i < |full| ensures ShowsInFeed(t, IdsOf(full)[i], user, ParseArticle(full[i])) {
      FeedRowByColumns(db, user, IdsOf(full)[i]);
    }
  }

  lemma ListPageByColumns(db: Db, f: Filters, viewer: Option<int>, limit: Option<int>, offset: Option<int>,
                          full: seq<ArticleView>, answer: Page<ArticleDto>)
    requires Integrity(db) && HasAuthors(Abstract(db)) && IsListingOf(full, Listed(Abstract(db), f, viewer))
    requires ParsedInOrder(Window(full, Some(limit.GetOr(20)), offset.GetOr(0)), answer)
    ensures IsListPage(db.tables, f, viewer, limit, offset, answer)
  {
    hide Integrity, Abstract, HasAuthors, Listed, Window, ParsedInOrder, ParseArticle, ShowsInList, InList, IsListingOf;
    hide NewestFirst, RowsOnPage;
    ListByColumns(db, f, viewer, full);
    var start, most := if offset.Some? then offset.value else 0, if limit.Some? then limit.value else 20;
    WindowInOrder(full, Some(most), start, answer);
    if answer.Page? {
      var t, ids := db.tables, IdsOf(full);
      forall i | 0 <= i < |answer.rows|
        ensures 0 <= start + i < |ids| && ShowsInList(t, ids[start + i], viewer, answer.rows[i])
      {
        assert start + i < |full| == |ids| && answer.rows[i] == ParseArticle(full[start + i]);
      }
      assert ListsAs(t, f, viewer, most, start, answer.rows, ids);
    }
  }

  lemma FeedPageByColumns(db: Db, user: int, limit: Option<int>, offset: Option<int>, full: seq<ArticleView>,
                          answer: Page<ArticleDto>)
    requires Integrity(db) && HasAuthors(Abstract(db))
    requires IsListingOf(full, Feed(Abstract(db), user, |db.tables.favorites|))
    requires ParsedInOrder(Window(full, limit, offset.GetOr(0)), answer)
    ensures IsFeedPage(db.tables, user, limit, offset, answer)
  {
    hide Integrity, Abstract, HasAuthors, Feed, Window, ParsedInOrder, ParseArticle, ShowsInFeed, InFeed, IsListingOf;
    hide NewestFirst, RowsOnPage;
    FeedByColumns(db, user, full);
    var start := if offset.Some? then offset.value else 0;
    WindowInOrder(full, limit, start, answer);
    if answer.Page? {
      var t, ids := db.tables, IdsOf(full);
      forall i | 0 <= i < |answer.rows|
        ensures 0 <= start + i < |ids| && ShowsInFeed(t, ids[start + i], user, answer.rows[i])
      {
        assert start + i < |full| == |ids| && answer.rows[i] == ParseArticle(full[start + i]);
      }
      assert FeedsAs(t, user, limit, start, answer.rows, ids);
    }
  }

  /** So the rows of an answer come newest first. */
  lemma ListPagesAreNewestFirst(t: Tables, f: Filters, viewer: Option<int>, limit: Option<int>, offset: Option<int>,
                                answer: Page<ArticleDto>)
    requires answer.Page? && IsListPage(t, f, viewer, limit, offset, answer)
    ensures forall i, j | 0 <= i < j < |answer.rows| :: answer.rows[i].createdAt >= answer.rows[j].createdAt
  {
  }

  lemma FeedPagesAreNewestFirst(t: Tables, user: int, limit: Option<int>, offset: Option<int>,
                                answer: Page<ArticleDto>)
    requires answer.Page? && IsFeedPage(t, user, limit, offset, answer)
    ensures forall i, j | 0 <= i < j < |answer.rows| :: answer.rows[i].createdAt >= answer.rows[j].createdAt
  {
  }

  // ---- comments ----

  ghost predicate ShowsComment(t: Tables, c: int, viewer: Option<int>, v: CommentView) {
    && c in t.comments
    && v.commentId == c
    && v.body == t.comments[c].body
    && v.createdAt == t.comments[c].createdAt
    && v.updatedAt == t.comments[c].updatedAt
    && ShowsProfile(t, t.comments[c].author, viewer, v.author)
  }

  lemma CommentByColumns(db: Db, c: int, viewer: Option<int>)
    requires Integrity(db) && c in db.tables.comments
    ensures
      var s, a := Abstract(db), db.tables.comments[c].article;
      && a in s.posts && c in s.posts[a].remarks && s.posts[a].remarks[c].author in s.users
      && ShowsComment(db.tables, c, viewer, RemarkView(s, a, c, viewer))
  {
    RemarksAreComments(db, c);
    AbstractParts(db, Abstract(db));
    ProfileByColumns(db, db.tables.comments[c].author, viewer);
    hide Integrity, Abstract, ShowsProfile, ProfileOf;
  }
}

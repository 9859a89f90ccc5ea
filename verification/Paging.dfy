/**
 * Paging through the list and the feed.  Each page is its own query, with its own order of visiting the tables, so
 * rows of one date may come in different orders on different pages.
 */
module Paging {
  import opened Prelude
  import opened Schema
  import opened Rows
  import opened Queries
  import opened AbstractStore
  import opened Listings

  // ---- pages are tiles of listings ----

  /** Consecutive pages from `offset` on, the k-th one cut from the k-th list. */
  function Tile<T>(lists: seq<seq<T>>, limit: nat, offset: nat): seq<T> {
    if lists == [] then []
    else Take(Drop(lists[0], offset), limit) + Tile(lists[1..], limit, offset + limit)
  }

  predicate AllScans(scans: seq<Scan>, t: Tables) {
    forall i | 0 <= i < |scans| :: ScanOf(scans[i], t)
  }

  /** Consecutive pages of the list, each fetched by its own query. */
  ghost function Pages(t: Tables, scans: seq<Scan>, f: Filters, viewer: Option<int>, limit: nat, offset: nat)
    : seq<ArticleView>
    requires AllScans(scans, t)
    decreases |scans|
  {
    if scans == [] then []
    else
      GetArticles(t, scans[0], f, viewer, Some(limit), Some(offset)).rows
      + Pages(t, scans[1..], f, viewer, limit, offset + limit)
  }

  ghost function FeedPages(t: Tables, scans: seq<Scan>, user: int, limit: nat, offset: nat): seq<ArticleView>
    requires AllScans(scans, t)
    decreases |scans|
  {
    if scans == [] then []
    else
      GetFeed(t, scans[0], user, Some(limit), Some(offset)).rows
      + FeedPages(t, scans[1..], user, limit, offset + limit)
  }

  ghost function Lists(t: Tables, scans: seq<Scan>, f: Filters, viewer: Option<int>): seq<seq<ArticleView>>
    requires AllScans(scans, t)
  {
    seq(|scans|, k requires 0 <= k < |scans| => ListAll(t, scans[k], f, viewer))
  }

  ghost function Feeds(t: Tables, scans: seq<Scan>, user: int): seq<seq<ArticleView>>
    requires AllScans(scans, t)
  {
    seq(|scans|, k requires 0 <= k < |scans| => FeedAll(t, scans[k], user))
  }

  lemma {:induction false} PagesAreTiles(
      t: Tables, scans: seq<Scan>, f: Filters, viewer: Option<int>, limit: nat, offset: nat)
    requires AllScans(scans, t)
    ensures Pages(t, scans, f, viewer, limit, offset) == Tile(Lists(t, scans, f, viewer), limit, offset)
    decreases |scans|
  {
    hide ScanOf, ListAll, Take, Drop;
    if scans != [] {
      PagesAreTiles(t, scans[1..], f, viewer, limit, offset + limit);
      assert Lists(t, scans, f, viewer)[1..] == Lists(t, scans[1..], f, viewer);
    }
  }

  lemma {:induction false} FeedPagesAreTiles(t: Tables, scans: seq<Scan>, user: int, limit: nat, offset: nat)
    requires AllScans(scans, t)
    ensures FeedPages(t, scans, user, limit, offset) == Tile(Feeds(t, scans, user), limit, offset)
    decreases |scans|
  {
    hide ScanOf, FeedAll, Take, Drop;
    if scans != [] {
      FeedPagesAreTiles(t, scans[1..], user, limit, offset + limit);
      assert Feeds(t, scans, user)[1..] == Feeds(t, scans[1..], user);
    }
  }

  // ---- with distinct dates there is one listing, and pages tile it ----

  predicate DistinctDates(rows: set<ArticleView>) {
    forall x, y | x in rows && y in rows :: x.createdAt == y.createdAt ==> x == y
  }

  predicate StrictlyNewer(x: ArticleView, y: ArticleView) {
    x.createdAt > y.createdAt
  }

  lemma DatesDetermineListing(full: seq<ArticleView>, other: seq<ArticleView>, rows: set<ArticleView>)
    requires IsListingOf(full, rows) && IsListingOf(other, rows) && DistinctDates(rows)
    ensures full == other
  {
    forall i, j | 0 <= i < j < |full| ensures StrictlyNewer(full[i], full[j]) {
      assert NewerFirst(full[i], full[j]) && full[i] != full[j];
    }
    forall i, j | 0 <= i < j < |other| ensures StrictlyNewer(other[i], other[j]) {
      assert NewerFirst(other[i], other[j]) && other[i] != other[j];
    }
    StrictOrderDetermines(StrictlyNewer, full, other);
  }

  lemma {:induction false} SameListTiles<T>(lists: seq<seq<T>>, full: seq<T>, limit: nat, offset: nat)
    requires forall k | 0 <= k < |lists| :: lists[k] == full
    ensures Tile(lists, limit, offset) == Take(Drop(full, offset), |lists| * limit)
    decreases |lists|
  {
    hide Drop;
    if lists != [] {
      SameListTiles(lists[1..], full, limit, offset + limit);
      OnePageFurther(full, offset, limit, |lists|);
    }
  }

  lemma OnePageFurther<T>(s: seq<T>, offset: nat, limit: nat, pages: nat)
    requires pages > 0
    ensures Take(Drop(s, offset), limit) + Take(Drop(s, offset + limit), (pages - 1) * limit)
            == Take(Drop(s, offset), pages * limit)
  {
    assert limit + (pages - 1) * limit == pages * limit;
    assert Drop(Drop(s, offset), limit) == Drop(s, offset + limit);
    TakeTwice(Drop(s, offset), limit, (pages - 1) * limit);
  }

  lemma TakeTwice<T>(s: seq<T>, m: nat, n: nat)
    ensures Take(s, m) + Take(Drop(s, m), n) == Take(s, m + n)
  {
  }

  /**
   * With different dates, n pages in a row are the next n * limit articles of the one listing there is, whatever
   * plan each page's query ran with: none is missing, repeated or out of order.
   */
  lemma PagesTileTheListing(
      db: Db, scans: seq<Scan>, f: Filters, viewer: Option<int>, limit: nat, offset: nat, full: seq<ArticleView>)
    requires Integrity(db) && HasAuthors(Abstract(db))
    requires AllScans(scans, db.tables)
    requires IsListingOf(full, Listed(Abstract(db), f, viewer)) && DistinctDates(Listed(Abstract(db), f, viewer))
    ensures Pages(db.tables, scans, f, viewer, limit, offset) == Take(Drop(full, offset), |scans| * limit)
  {
    hide Integrity, Abstract, HasAuthors, IsListingOf, Listed, DistinctDates, ScanOf, ListAll, Pages, Tile;
    var lists := Lists(db.tables, scans, f, viewer);
    forall k | 0 <= k < |lists| ensures lists[k] == full {
      ListIsListing(db, scans[k], f, viewer);
      DatesDetermineListing(lists[k], full, Listed(Abstract(db), f, viewer));
    }
    PagesAreTiles(db.tables, scans, f, viewer, limit, offset);
    SameListTiles(lists, full, limit, offset);
  }

  /** The same for the feed. */
  lemma FeedPagesTileTheFeed(
      db: Db, scans: seq<Scan>, user: int, limit: nat, offset: nat, full: seq<ArticleView>)
    requires Integrity(db) && HasAuthors(Abstract(db))
    requires AllScans(scans, db.tables)
    requires
      var rows := Feed(Abstract(db), user, |db.tables.favorites|);
      IsListingOf(full, rows) && DistinctDates(rows)
    ensures FeedPages(db.tables, scans, user, limit, offset) == Take(Drop(full, offset), |scans| * limit)
  {
    hide Integrity, Abstract, HasAuthors, IsListingOf, Feed, DistinctDates, ScanOf, FeedAll, FeedPages, Tile;
    var feeds := Feeds(db.tables, scans, user);
    forall k | 0 <= k < |feeds| ensures feeds[k] == full {
      FeedIsListing(db, scans[k], user);
      DatesDetermineListing(feeds[k], full, Feed(Abstract(db), user, |db.tables.favorites|));
    }
    FeedPagesAreTiles(db.tables, scans, user, limit, offset);
    SameListTiles(feeds, full, limit, offset);
  }

  /** Enough pages give the whole list. */
  lemma EnoughPagesGiveEverything(db: Db, scans: seq<Scan>, f: Filters, viewer: Option<int>, limit: nat)
    requires Integrity(db) && HasAuthors(Abstract(db))
    requires scans != [] && AllScans(scans, db.tables)
    requires DistinctDates(Listed(Abstract(db), f, viewer))
    requires |scans| * limit >= |Listed(Abstract(db), f, viewer)|
    ensures Pages(db.tables, scans, f, viewer, limit, 0) == ListAll(db.tables, scans[0], f, viewer)
  {
    hide Integrity, Abstract, HasAuthors, Listed, DistinctDates, ScanOf, ListAll, Pages, Tile;
    var full := ListAll(db.tables, scans[0], f, viewer);
    ListIsListing(db, scans[0], f, viewer);
    ScanLength(full, Listed(Abstract(db), f, viewer));
    PagesTileTheListing(db, scans, f, viewer, limit, 0, full);
  }

  // ---- ties inside a page do no harm ----

  /** The date changes at m. */
  predicate Changes(full: seq<ArticleView>, m: nat) {
    0 < m < |full| ==> full[m - 1].createdAt != full[m].createdAt
  }

  /** No two rows of one date on either side of a page boundary. */
  predicate NoTieAcross(full: seq<ArticleView>, limit: nat)
    requires limit > 0
  {
    forall m | 0 < m < |full| && m % limit == 0 :: full[m - 1].createdAt != full[m].createdAt
  }

  ghost function Firsts<T>(s: seq<T>, m: nat): set<T> {
    set x | x in Take(s, m)
  }

  lemma FirstsCount<T>(s: seq<T>, m: nat)
    requires NoDuplicates(s) && m <= |s|
    ensures |Firsts(s, m)| == m
  {
    ScanLength(s[..m], Firsts(s, m));
  }

  /** The rows down to a change of date are the rows of that date or later. */
  lemma FirstsByDate(full: seq<ArticleView>, rows: set<ArticleView>, m: nat)
    requires IsListingOf(full, rows) && 0 < m < |full| && Changes(full, m)
    ensures Firsts(full, m) == set x | x in rows && x.createdAt >= full[m - 1].createdAt
  {
    assert NewerFirst(full[m - 1], full[m]);
    forall x | x in rows && x.createdAt >= full[m - 1].createdAt ensures x in full[..m] {
      var k :| 0 <= k < |full| && full[k] == x;
      assert k > m ==> NewerFirst(full[m], full[k]);
      assert k < m ==> full[..m][k] == x;
    }
    forall x | x in full[..m] ensures x in rows && x.createdAt >= full[m - 1].createdAt {
      var k :| 0 <= k < m && full[..m][k] == x;
      assert full[k] in full;
      assert k < m - 1 ==> NewerFirst(full[k], full[m - 1]);
    }
  }

  /** Rows of a date or later come first in every listing. */
  lemma LaterRowsComeFirst(other: seq<ArticleView>, rows: set<ArticleView>, date: int, m: nat)
    requires IsListingOf(other, rows) && m <= |other|
    requires |set x | x in rows && x.createdAt >= date| == m
    ensures Firsts(other, m) == set x | x in rows && x.createdAt >= date
  {
    var late := set x | x in rows && x.createdAt >= date;
    forall i | 0 <= i < m ensures other[i] in late {
      assert other[i] in other;
      if other[i].createdAt < date {
        forall x | x in late ensures x in Firsts(other, i) {
          var k :| 0 <= k < |other| && other[k] == x;
          assert k > i ==> NewerFirst(other[i], other[k]);
          assert other[..i][k] == x;
        }
        FirstsCount(other, i);
        SubsetIsNoLarger(late, Firsts(other, i));
      }
    }
    FirstsCount(other, m);
    SubsetIsNoLarger(Firsts(other, m), late);
  }

  /** Without a tie at m, every listing has the same first m rows. */
  lemma SameFirsts(full: seq<ArticleView>, other: seq<ArticleView>, rows: set<ArticleView>, m: nat)
    requires IsListingOf(full, rows) && IsListingOf(other, rows)
    requires Changes(full, m)
    ensures Firsts(full, m) == Firsts(other, m)
  {
    ScanLength(full, rows);
    ScanLength(other, rows);
    if m >= |full| {
      assert Firsts(full, m) == rows == Firsts(other, m);
    } else if m > 0 {
      FirstsByDate(full, rows, m);
      FirstsCount(full, m);
      LaterRowsComeFirst(other, rows, full[m - 1].createdAt, m);
    }
  }

  lemma PageIsDifference<T>(s: seq<T>, offset: nat, limit: nat)
    requires NoDuplicates(s)
    ensures Enumerates(Take(Drop(s, offset), limit), Firsts(s, offset + limit) - Firsts(s, offset))
    ensures Firsts(s, offset) <= Firsts(s, offset + limit)
  {
    var page := Take(Drop(s, offset), limit);
    assert forall i | 0 <= i < |page| :: page[i] == s[offset + i];
    forall x | x in page ensures x in Firsts(s, offset + limit) && x !in Firsts(s, offset) {
      var i :| 0 <= i < |page| && page[i] == x;
      assert Take(s, offset + limit)[offset + i] == x;
      forall j | 0 <= j < |Take(s, offset)| ensures Take(s, offset)[j] != x {
        assert s[j] != s[offset + i];
      }
    }
    assert forall j | 0 <= j < |Take(s, offset)| :: s[j] in Firsts(s, offset) by {
      assert forall j | 0 <= j < |Take(s, offset)| :: s[j] == Take(s, offset)[j];
    }
    forall x | x in Firsts(s, offset + limit) && x !in Firsts(s, offset) ensures x in page {
      var j :| 0 <= j < |Take(s, offset + limit)| && Take(s, offset + limit)[j] == x;
      assert j >= offset;
      assert page[j - offset] == x;
    }
    forall x | x in Firsts(s, offset) ensures x in Firsts(s, offset + limit) {
      var j :| 0 <= j < |Take(s, offset)| && Take(s, offset)[j] == x;
      assert Take(s, offset + limit)[j] == x;
    }
  }

  lemma EnumeratesBoth<T>(a: seq<T>, b: seq<T>, s: set<T>, t: set<T>)
    requires Enumerates(a, s) && Enumerates(b, t) && s !! t
    ensures Enumerates(a + b, s + t)
  {
    forall i, j | 0 <= i < j < |a + b| ensures (a + b)[i] != (a + b)[j] {
      if i < |a| <= j {
        assert a[i] in s && b[j - |a|] in t;
      }
    }
  }

  lemma AtLeast(k: int, limit: int)
    requires limit > 0
    ensures k >= 1 ==> k * limit >= limit
    ensures k <= -1 ==> k * limit <= -limit
  {
  }

  lemma OnePagePerRowIsEnough(rows: nat, limit: nat)
    requires limit > 0
    ensures rows * limit >= rows
  {
  }

  lemma MultipleHasNoRemainder(k: nat, limit: nat)
    requires limit > 0
    ensures (k * limit) % limit == 0
  {
    var q, r := (k * limit) / limit, (k * limit) % limit;
    assert (k - q) * limit == k * limit - q * limit == r;
    AtLeast(k - q, limit);
  }

  lemma BoundaryIsMultiple(m: nat, limit: nat) returns (k: nat)
    requires limit > 0 && m % limit == 0
    ensures m == k * limit
  {
    k := m / limit;
  }

  /** Enough pages after the first n show what is left, each row once, whichever listing each page is cut from. */
  lemma {:induction false} TilesEnumerateTheRest(
      full: seq<ArticleView>, lists: seq<seq<ArticleView>>, rows: set<ArticleView>, limit: nat, n: nat)
    requires limit > 0 && IsListingOf(full, rows) && NoTieAcross(full, limit)
    requires forall k | 0 <= k < |lists| :: IsListingOf(lists[k], rows)
    requires n * limit + |lists| * limit >= |full|
    ensures Enumerates(Tile(lists, limit, n * limit), rows - Firsts(full, n * limit))
    decreases |lists|
  {
    hide IsListingOf, NoTieAcross, Enumerates;
    if lists == [] {
      NothingLeft(full, rows, n * limit);
    } else {
      var next := n * limit + limit;
      OnePageOn(n, limit, |lists|);
      BoundaryChanges(full, limit, n);
      BoundaryChanges(full, limit, n + 1);
      TilesEnumerateTheRest(full, lists[1..], rows, limit, n + 1);
      OnePageThenTheRest(full, lists[0], Tile(lists[1..], limit, next), rows, limit, n * limit);
    }
  }

  lemma OnePageOn(n: nat, limit: nat, pages: nat)
    requires pages > 0
    ensures (n + 1) * limit == n * limit + limit
    ensures (n + 1) * limit + (pages - 1) * limit == n * limit + pages * limit
  {
  }

  lemma NothingLeft(full: seq<ArticleView>, rows: set<ArticleView>, m: nat)
    requires IsListingOf(full, rows) && m >= |full|
    ensures Enumerates([], rows - Firsts(full, m))
  {
    assert Take(full, m) == full;
  }

  lemma BoundaryChanges(full: seq<ArticleView>, limit: nat, n: nat)
    requires limit > 0 && NoTieAcross(full, limit)
    ensures Changes(full, n * limit)
  {
    MultipleHasNoRemainder(n, limit);
  }

  lemma FirstsAreRows(full: seq<ArticleView>, rows: set<ArticleView>, m: nat)
    requires IsListingOf(full, rows)
    ensures Firsts(full, m) <= rows
  {
    assert forall x | x in Take(full, m) :: x in full;
  }

  lemma OnePageThenTheRest(full: seq<ArticleView>, list: seq<ArticleView>, rest: seq<ArticleView>,
                           rows: set<ArticleView>, limit: nat, offset: nat)
    requires IsListingOf(full, rows) && IsListingOf(list, rows)
    requires Changes(full, offset) && Changes(full, offset + limit)
    requires Enumerates(rest, rows - Firsts(full, offset + limit))
    ensures Enumerates(Take(Drop(list, offset), limit) + rest, rows - Firsts(full, offset))
  {
    var here, done := Firsts(full, offset + limit), Firsts(full, offset);
    SameFirsts(full, list, rows, offset);
    SameFirsts(full, list, rows, offset + limit);
    FirstsAreRows(full, rows, offset + limit);
    assert NoDuplicates(list);
    hide IsListingOf, Changes, Enumerates, NoDuplicates, Firsts, Take, Drop;
    PageIsDifference(list, offset, limit);
    EnumeratesBoth(Take(Drop(list, offset), limit), rest, here - done, rows - here);
    assert (here - done) + (rows - here) == rows - done;
  }

  // ---- every newest-first order is some plan's ----

  function IdsOf(rows: seq<ArticleView>): seq<int> {
    seq(|rows|, i requires 0 <= i < |rows| => rows[i].articleId)
  }

  function Others(scan: seq<int>, ids: seq<int>): seq<int> {
    if scan == [] then []
    else (if scan[0] in ids then [] else [scan[0]]) + Others(scan[1..], ids)
  }

  lemma {:induction false} OthersFacts(scan: seq<int>, ids: seq<int>)
    requires NoDuplicates(scan)
    ensures NoDuplicates(Others(scan, ids))
    ensures forall a :: a in Others(scan, ids) <==> a in scan && a !in ids
  {
    if scan != [] {
      OthersFacts(scan[1..], ids);
      assert forall a :: a in scan <==> a == scan[0] || a in scan[1..];
    }
  }

  lemma {:induction false} SortedStaysPut<T>(le: (T, T) -> bool, s: seq<T>)
    requires SortedBy(le, s)
    ensures OrderBy(le, s) == s
  {
    if s != [] {
      SortedStaysPut(le, s[1..]);
      assert s == [s[0]] + s[1..];
    }
  }

  lemma RowsForStep(chosen: map<int, ArticleView>, articles: seq<int>)
    requires articles != []
    ensures RowsFor(chosen, articles) == RowOf(chosen, articles[0]) + RowsFor(chosen, articles[1..])
  {
  }

  lemma {:induction false} RowsForConcat(chosen: map<int, ArticleView>, a: seq<int>, b: seq<int>)
    ensures RowsFor(chosen, a + b) == RowsFor(chosen, a) + RowsFor(chosen, b)
  {
    if a == [] {
      assert a + b == b;
    } else {
      hide RowsFor, RowOf;
      assert (a + b)[0] == a[0] && (a + b)[1..] == a[1..] + b;
      RowsForStep(chosen, a);
      RowsForStep(chosen, a + b);
      RowsForConcat(chosen, a[1..], b);
    }
  }

  lemma {:induction false} ChosenRows(chosen: map<int, ArticleView>, rows: seq<ArticleView>)
    requires ById(chosen) && forall i | 0 <= i < |rows| :: rows[i] in RowsIn(chosen)
    ensures RowsFor(chosen, IdsOf(rows)) == rows
  {
    if rows != [] {
      assert rows[0] in RowsIn(chosen);
      ChosenRows(chosen, rows[1..]);
      assert IdsOf(rows)[1..] == IdsOf(rows[1..]);
    }
  }

  lemma {:induction false} NoRows(chosen: map<int, ArticleView>, articles: seq<int>)
    requires forall i | 0 <= i < |articles| :: articles[i] !in chosen
    ensures RowsFor(chosen, articles) == []
  {
    if articles != [] {
      NoRows(chosen, articles[1..]);
    }
  }

  lemma IdsOfListing(chosen: map<int, ArticleView>, full: seq<ArticleView>)
    requires ById(chosen) && Enumerates(full, RowsIn(chosen))
    ensures Enumerates(IdsOf(full), chosen.Keys)
  {
    forall i | 0 <= i < |full| ensures full[i].articleId in chosen && full[i] == chosen[full[i].articleId] {
      assert full[i] in RowsIn(chosen);
    }
    forall a | a in chosen ensures a in IdsOf(full) {
      assert chosen[a] in full;
      var k :| 0 <= k < |full| && full[k] == chosen[a];
      assert IdsOf(full)[k] == a;
    }
  }

  /** The ids of a listing followed by the ids of the articles it leaves out select that listing's rows. */
  lemma ListedThenOthers(chosen: map<int, ArticleView>, scan: seq<int>, keys: set<int>, full: seq<ArticleView>)
    requires ById(chosen) && chosen.Keys <= keys && Enumerates(scan, keys) && Enumerates(full, RowsIn(chosen))
    ensures
      var ids := IdsOf(full) + Others(scan, IdsOf(full));
      Enumerates(ids, keys) && RowsFor(chosen, ids) == full
  {
    hide RowsFor, Others, IdsOf;
    var ids := IdsOf(full);
    var rest := Others(scan, ids);
    OthersFacts(scan, ids);
    IdsOfListing(chosen, full);
    assert forall a :: a in rest <==> a in keys && a !in chosen;
    EnumeratesBoth(ids, rest, chosen.Keys, keys - chosen.Keys);
    assert chosen.Keys + (keys - chosen.Keys) == keys;
    ChosenRows(chosen, full);
    assert forall i | 0 <= i < |rest| :: rest[i] in rest;
    NoRows(chosen, rest);
    RowsForConcat(chosen, ids, rest);
  }

  /** Every order of the list that is newest first is the order some scan of the tables leads to. */
  lemma EveryListingIsSomeScans(db: Db, f: Filters, viewer: Option<int>, full: seq<ArticleView>) returns (plan: Scan)
    requires Integrity(db) && HasAuthors(Abstract(db))
    requires IsListingOf(full, Listed(Abstract(db), f, viewer))
    ensures ScanOf(plan, db.tables)
    ensures ListAll(db.tables, plan, f, viewer) == full
  {
    hide Integrity, Abstract, HasAuthors, ListChoice, ListRows, RowsFor, Others;
    var sc, chosen := SomeScan(db.tables), ListChoice(Abstract(db), f, viewer);
    ListChoiceById(db, f, viewer);
    ListedThenOthers(chosen, sc.articles, db.tables.articles.Keys, full);
    plan := sc.(articles := IdsOf(full) + Others(sc.articles, IdsOf(full)));
    ListRowsAgree(db, plan, f, viewer, plan.articles);
    SortedStaysPut(NewerFirst, full);
  }

  lemma EveryFeedIsSomeScans(db: Db, user: int, full: seq<ArticleView>) returns (plan: Scan)
    requires Integrity(db) && HasAuthors(Abstract(db))
    requires IsListingOf(full, Feed(Abstract(db), user, |db.tables.favorites|))
    ensures ScanOf(plan, db.tables)
    ensures FeedAll(db.tables, plan, user) == full
  {
    hide Integrity, Abstract, HasAuthors, FeedChoice, FeedRows, RowsFor, Others;
    var sc, chosen := SomeScan(db.tables), FeedChoice(Abstract(db), user, |db.tables.favorites|);
    FeedChoiceById(db, user, |db.tables.favorites|);
    ListedThenOthers(chosen, sc.articles, db.tables.articles.Keys, full);
    plan := sc.(articles := IdsOf(full) + Others(sc.articles, IdsOf(full)));
    FeedRowsAgree(db, plan, user, plan.articles);
    SortedStaysPut(NewerFirst, full);
  }

  // ---- a tie across a boundary does ----

  function Swapped<T>(s: seq<T>, m: nat): seq<T>
    requires 0 < m < |s|
  {
    s[m - 1 := s[m]][m := s[m - 1]]
  }

  lemma SwapOnTie(full: seq<ArticleView>, rows: set<ArticleView>, m: nat)
    requires IsListingOf(full, rows) && 0 < m < |full| && full[m - 1].createdAt == full[m].createdAt
    ensures IsListingOf(Swapped(full, m), rows)
  {
    var other := Swapped(full, m);
    assert forall k | 0 <= k < |full| :: other[k].createdAt == full[k].createdAt;
    forall k, l | 0 <= k < l < |other| ensures NewerFirst(other[k], other[l]) {
      assert NewerFirst(full[k], full[l]);
    }
    forall x | x in rows ensures x in other {
      var k :| 0 <= k < |full| && full[k] == x;
      assert other[if k == m - 1 then m else if k == m then m - 1 else k] == x;
    }
  }

  function SwitchAt<T>(usual: T, once: T, i: nat, length: nat): (r: seq<T>)
    ensures |r| == length
    ensures forall k | 0 <= k < length :: r[k] == if k == i then once else usual
  {
    seq(length, k => if k == i then once else usual)
  }

  /** A row on two pages in a row. */
  lemma {:induction false} TilesRepeat<T>(lists: seq<seq<T>>, limit: nat, offset: nat, k: nat, x: T)
    requires k + 1 < |lists|
    requires x in Take(Drop(lists[k], offset + k * limit), limit)
    requires x in Take(Drop(lists[k + 1], offset + k * limit + limit), limit)
    ensures !NoDuplicates(Tile(lists, limit, offset))
    decreases k
  {
    hide Take, Drop;
    var page, rest := Take(Drop(lists[0], offset), limit), Tile(lists[1..], limit, offset + limit);
    if k > 0 {
      assert offset + limit + (k - 1) * limit == offset + k * limit;
      TilesRepeat(lists[1..], limit, offset + limit, k - 1, x);
      DuplicatesStay(page, rest);
    } else {
      assert k * limit == 0;
      var second := Take(Drop(lists[1], offset + limit), limit);
      assert rest == second + Tile(lists[1..][1..], limit, offset + limit + limit);
      NeighboursShare(page, second, Tile(lists[1..][1..], limit, offset + limit + limit), x);
    }
  }

  lemma NeighboursShare<T>(a: seq<T>, b: seq<T>, c: seq<T>, x: T)
    requires x in a && x in b
    ensures !NoDuplicates(a + (b + c))
  {
    var i :| 0 <= i < |a| && a[i] == x;
    var j :| 0 <= j < |b| && b[j] == x;
    assert (a + (b + c))[i] == (a + (b + c))[|a| + j];
  }

  lemma DuplicatesStay<T>(a: seq<T>, b: seq<T>)
    requires !NoDuplicates(b)
    ensures !NoDuplicates(a + b)
  {
    var i, j :| 0 <= i < j < |b| && b[i] == b[j];
    assert (a + b)[|a| + i] == (a + b)[|a| + j];
  }

  /** With the swapped listing on the page before the boundary, the first row after it has been shown already. */
  lemma SwappedPageRepeats(full: seq<ArticleView>, limit: nat, k: nat)
    requires limit > 0 && k > 0 && k * limit < |full|
    ensures !NoDuplicates(Tile(SwitchAt(full, Swapped(full, k * limit), k - 1, |full|), limit, 0))
  {
    var m := k * limit;
    assert (k - 1) * limit + limit == m;
    assert k <= m;
    var lists := SwitchAt(full, Swapped(full, m), k - 1, |full|);
    var before, after := Take(Drop(lists[k - 1], (k - 1) * limit), limit), Take(Drop(lists[k], m), limit);
    assert before[limit - 1] == Swapped(full, m)[m - 1] == full[m];
    assert after[0] == full[m];
    TilesRepeat(lists, limit, 0, k - 1, full[m]);
  }

  lemma TieAcross(full: seq<ArticleView>, limit: nat) returns (k: nat)
    requires limit > 0 && !NoTieAcross(full, limit)
    ensures 0 < k && k * limit < |full| && k <= |full|
    ensures full[k * limit - 1].createdAt == full[k * limit].createdAt
  {
    var m :| 0 < m < |full| && m % limit == 0 && full[m - 1].createdAt == full[m].createdAt;
    k := BoundaryIsMultiple(m, limit);
    AtLeast(k, limit);
    OnePagePerRowIsEnough(k, limit);
  }

  // ---- the exact condition ----

  /** A tie across a page boundary gives plans under which paging shows a row twice. */
  lemma TiesBreakPaging(db: Db, f: Filters, viewer: Option<int>, limit: nat, full: seq<ArticleView>)
      returns (scans: seq<Scan>)
    requires limit > 0 && Integrity(db) && HasAuthors(Abstract(db))
    requires IsListingOf(full, Listed(Abstract(db), f, viewer)) && !NoTieAcross(full, limit)
    ensures AllScans(scans, db.tables) && |scans| == |full|
    ensures !NoDuplicates(Pages(db.tables, scans, f, viewer, limit, 0))
  {
    hide Integrity, Abstract, HasAuthors, IsListingOf, Listed, NoTieAcross, ScanOf, ListAll, Pages, Tile, NoDuplicates;
    var k := TieAcross(full, limit);
    SwapOnTie(full, Listed(Abstract(db), f, viewer), k * limit);
    var usual := EveryListingIsSomeScans(db, f, viewer, full);
    var once := EveryListingIsSomeScans(db, f, viewer, Swapped(full, k * limit));
    scans := SwitchAt(usual, once, k - 1, |full|);
    PagesAreTiles(db.tables, scans, f, viewer, limit, 0);
    assert Lists(db.tables, scans, f, viewer) == SwitchAt(full, Swapped(full, k * limit), k - 1, |full|);
    SwappedPageRepeats(full, limit, k);
  }

  lemma TiesBreakFeedPaging(db: Db, user: int, limit: nat, full: seq<ArticleView>) returns (scans: seq<Scan>)
    requires limit > 0 && Integrity(db) && HasAuthors(Abstract(db))
    requires IsListingOf(full, Feed(Abstract(db), user, |db.tables.favorites|)) && !NoTieAcross(full, limit)
    ensures AllScans(scans, db.tables) && |scans| == |full|
    ensures !NoDuplicates(FeedPages(db.tables, scans, user, limit, 0))
  {
    hide Integrity, Abstract, HasAuthors, IsListingOf, Feed, NoTieAcross, ScanOf, FeedAll, FeedPages, Tile;
    hide NoDuplicates;
    var k := TieAcross(full, limit);
    SwapOnTie(full, Feed(Abstract(db), user, |db.tables.favorites|), k * limit);
    var usual := EveryFeedIsSomeScans(db, user, full);
    var once := EveryFeedIsSomeScans(db, user, Swapped(full, k * limit));
    scans := SwitchAt(usual, once, k - 1, |full|);
    FeedPagesAreTiles(db.tables, scans, user, limit, 0);
    assert Feeds(db.tables, scans, user) == SwitchAt(full, Swapped(full, k * limit), k - 1, |full|);
    SwappedPageRepeats(full, limit, k);
  }

  lemma EnoughTiles(full: seq<ArticleView>, lists: seq<seq<ArticleView>>, rows: set<ArticleView>, limit: nat)
    requires limit > 0 && IsListingOf(full, rows) && NoTieAcross(full, limit)
    requires forall k | 0 <= k < |lists| :: IsListingOf(lists[k], rows)
    requires |lists| * limit >= |full|
    ensures Enumerates(Tile(lists, limit, 0), rows)
  {
    hide IsListingOf, NoTieAcross, Tile, Enumerates;
    TilesEnumerateTheRest(full, lists, rows, limit, 0);
    assert 0 * limit == 0;
    assert rows - Firsts(full, 0) == rows;
  }

  lemma PagesWithoutTies(db: Db, scans: seq<Scan>, f: Filters, viewer: Option<int>, limit: nat, full: seq<ArticleView>)
    requires limit > 0 && Integrity(db) && HasAuthors(Abstract(db))
    requires IsListingOf(full, Listed(Abstract(db), f, viewer)) && NoTieAcross(full, limit)
    requires AllScans(scans, db.tables) && |scans| * limit >= |full|
    ensures Enumerates(Pages(db.tables, scans, f, viewer, limit, 0), Listed(Abstract(db), f, viewer))
  {
    hide Integrity, Abstract, HasAuthors, IsListingOf, Listed, NoTieAcross, ScanOf, ListAll, Pages, Tile, Enumerates;
    var lists := Lists(db.tables, scans, f, viewer);
    forall k | 0 <= k < |lists| ensures IsListingOf(lists[k], Listed(Abstract(db), f, viewer)) {
      ListIsListing(db, scans[k], f, viewer);
    }
    PagesAreTiles(db.tables, scans, f, viewer, limit, 0);
    EnoughTiles(full, lists, Listed(Abstract(db), f, viewer), limit);
  }

  lemma FeedPagesWithoutTies(db: Db, scans: seq<Scan>, user: int, limit: nat, full: seq<ArticleView>)
    requires limit > 0 && Integrity(db) && HasAuthors(Abstract(db))
    requires IsListingOf(full, Feed(Abstract(db), user, |db.tables.favorites|)) && NoTieAcross(full, limit)
    requires AllScans(scans, db.tables) && |scans| * limit >= |full|
    ensures
      Enumerates(FeedPages(db.tables, scans, user, limit, 0), Feed(Abstract(db), user, |db.tables.favorites|))
  {
    hide Integrity, Abstract, HasAuthors, IsListingOf, Feed, NoTieAcross, ScanOf, FeedAll, FeedPages, Tile, Enumerates;
    var feeds, rows := Feeds(db.tables, scans, user), Feed(Abstract(db), user, |db.tables.favorites|);
    forall k | 0 <= k < |feeds| ensures IsListingOf(feeds[k], rows) {
      FeedIsListing(db, scans[k], user);
    }
    FeedPagesAreTiles(db.tables, scans, user, limit, 0);
    EnoughTiles(full, feeds, rows, limit);
  }

  /**
   * For any page size: enough pages of the list show every article once under every choice of plans exactly when no
   * two articles of one date stand on either side of a page boundary.
   */
  lemma PagingIsSoundIffNoTieAcross(db: Db, f: Filters, viewer: Option<int>, limit: nat, full: seq<ArticleView>)
    requires limit > 0 && Integrity(db) && HasAuthors(Abstract(db))
    requires IsListingOf(full, Listed(Abstract(db), f, viewer))
    ensures
      NoTieAcross(full, limit) <==>
      forall scans: seq<Scan> | AllScans(scans, db.tables) && |scans| * limit >= |full| ::
        Enumerates(Pages(db.tables, scans, f, viewer, limit, 0), Listed(Abstract(db), f, viewer))
  {
    hide Integrity, Abstract, HasAuthors, IsListingOf, Listed, NoTieAcross, AllScans, Pages, NoDuplicates;
    if NoTieAcross(full, limit) {
      forall scans: seq<Scan> | AllScans(scans, db.tables) && |scans| * limit >= |full|
        ensures Enumerates(Pages(db.tables, scans, f, viewer, limit, 0), Listed(Abstract(db), f, viewer))
      {
        PagesWithoutTies(db, scans, f, viewer, limit, full);
      }
    } else {
      var scans := TiesBreakPaging(db, f, viewer, limit, full);
      OnePagePerRowIsEnough(|full|, limit);
      assert !Enumerates(Pages(db.tables, scans, f, viewer, limit, 0), Listed(Abstract(db), f, viewer));
    }
  }

  lemma FeedPagingIsSoundIffNoTieAcross(db: Db, user: int, limit: nat, full: seq<ArticleView>)
    requires limit > 0 && Integrity(db) && HasAuthors(Abstract(db))
    requires IsListingOf(full, Feed(Abstract(db), user, |db.tables.favorites|))
    ensures
      NoTieAcross(full, limit) <==>
      forall scans: seq<Scan> | AllScans(scans, db.tables) && |scans| * limit >= |full| ::
        Enumerates(FeedPages(db.tables, scans, user, limit, 0), Feed(Abstract(db), user, |db.tables.favorites|))
  {
    hide Integrity, Abstract, HasAuthors, IsListingOf, Feed, NoTieAcross, AllScans, FeedPages, NoDuplicates;
    var rows := Feed(Abstract(db), user, |db.tables.favorites|);
    if NoTieAcross(full, limit) {
      forall scans: seq<Scan> | AllScans(scans, db.tables) && |scans| * limit >= |full|
        ensures Enumerates(FeedPages(db.tables, scans, user, limit, 0), rows)
      {
        FeedPagesWithoutTies(db, scans, user, limit, full);
      }
    } else {
      var scans := TiesBreakFeedPaging(db, user, limit, full);
      OnePagePerRowIsEnough(|full|, limit);
      assert !Enumerates(FeedPages(db.tables, scans, user, limit, 0), rows);
    }
  }

  lemma NoTieAcrossAnyRow(full: seq<ArticleView>, rows: set<ArticleView>)
    requires IsListingOf(full, rows)
    ensures NoTieAcross(full, 1) <==> DistinctDates(rows)
  {
    if NoTieAcross(full, 1) {
      forall x, y | x in rows && y in rows && x.createdAt == y.createdAt ensures x == y {
        var i :| 0 <= i < |full| && full[i] == x;
        var j :| 0 <= j < |full| && full[j] == y;
        DatesFall(full, rows, i, j);
        DatesFall(full, rows, j, i);
      }
    } else {
      var m :| 0 < m < |full| && full[m - 1].createdAt == full[m].createdAt;
      assert full[m - 1] in rows && full[m] in rows && full[m - 1] != full[m];
    }
  }

  lemma DatesFall(full: seq<ArticleView>, rows: set<ArticleView>, i: nat, j: nat)
    requires IsListingOf(full, rows) && NoTieAcross(full, 1) && j < |full|
    ensures i < j ==> full[i].createdAt > full[j].createdAt
  {
    if i < j {
      assert j % 1 == 0;
      assert NewerFirst(full[j - 1], full[j]) && full[j - 1].createdAt != full[j].createdAt;
      assert i < j - 1 ==> NewerFirst(full[i], full[j - 1]);
    }
  }

  /** Row by row, paging is sound exactly when all dates differ. */
  lemma PagingRowByRowNeedsDistinctDates(db: Db, f: Filters, viewer: Option<int>, full: seq<ArticleView>)
    requires Integrity(db) && HasAuthors(Abstract(db))
    requires IsListingOf(full, Listed(Abstract(db), f, viewer))
    ensures
      DistinctDates(Listed(Abstract(db), f, viewer)) <==>
      forall scans: seq<Scan> | AllScans(scans, db.tables) && |scans| * 1 >= |full| ::
        Enumerates(Pages(db.tables, scans, f, viewer, 1, 0), Listed(Abstract(db), f, viewer))
  {
    hide *;
    NoTieAcrossAnyRow(full, Listed(Abstract(db), f, viewer));
    PagingIsSoundIffNoTieAcross(db, f, viewer, 1, full);
  }

  lemma SmallRemainder(m: nat, limit: nat)
    requires m < limit
    ensures m % limit == m
  {
  }

  /** A page that holds everything is always sound: it has no boundary. */
  lemma OnePageHasNoBoundary(full: seq<ArticleView>, limit: nat)
    requires limit > 0 && limit >= |full|
    ensures NoTieAcross(full, limit)
  {
    forall m | 0 < m < |full| ensures m % limit != 0 {
      SmallRemainder(m, limit);
    }
  }
}

/**
 * The query functions, as the SQL writes them: nested joins over scans of the tables, three-valued comparisons,
 * ORDER BY, LIMIT and OFFSET.  The scan order is an argument because SQL leaves it open.
 */
module Queries {
  import opened Prelude
  import opened Text
  import opened Schema
  import opened Rows

  // ---- three-valued comparison: a comparison with NULL is neither true nor false ----

  datatype Truth = True | False | Unknown

  function SqlEquals(a: Option<int>, b: Option<int>): Truth {
    if a.None? || b.None? then Unknown else if a.value == b.value then True else False
  }

  function SqlAnd(a: Truth, b: Truth): Truth {
    if a.False? || b.False? then False else if a.True? && b.True? then True else Unknown
  }

  // ---- what the queries return ----

  datatype Profile = Profile(username: string, bio: Option<string>, image: Option<string>, following: bool)

  datatype ArticleView = ArticleView(
    articleId: int, title: string, slug: string, description: string, body: string, createdAt: int, updatedAt: int,
    tagList: seq<string>, favorited: bool, favoritesCount: int, author: Profile)

  datatype CommentView = CommentView(commentId: int, createdAt: int, updatedAt: int, body: string, author: Profile)

  datatype Filters = Filters(tag: Option<string>, author: Option<string>, favoritedBy: Option<string>)

  // ---- scans ----

  datatype Scan = Scan(
    users: seq<int>, articles: seq<int>, tags: seq<int>, articleTags: seq<(int, int)>, comments: seq<int>)

  predicate ScanOf(sc: Scan, t: Tables) {
    && Enumerates(sc.users, t.users.Keys)
    && Enumerates(sc.articles, t.articles.Keys)
    && Enumerates(sc.tags, t.tags.Keys)
    && Enumerates(sc.articleTags, t.articleTags)
    && Enumerates(sc.comments, t.comments.Keys)
  }

  /** A scan of the tables.  What the handlers read does not depend on which one it is. */
  ghost function SomeScan(t: Tables): (sc: Scan)
    ensures ScanOf(sc, t)
  {
    Scan(EnumerationOf(t.users.Keys), EnumerationOf(t.articles.Keys), EnumerationOf(t.tags.Keys),
         EnumerationOf(t.articleTags), EnumerationOf(t.comments.Keys))
  }

  predicate Within(scan: seq<int>, keys: set<int>) {
    forall i | 0 <= i < |scan| :: scan[i] in keys
  }

  // ---- users and profiles ----

  predicate IsFollowing(t: Tables, follower: Option<int>, followed: int) {
    exists p | p in t.followers :: SqlAnd(SqlEquals(Some(p.0), follower), SqlEquals(Some(p.1), Some(followed))) == True
  }

  predicate IsFavorited(t: Tables, article: int, user: Option<int>) {
    exists p | p in t.favorites :: SqlAnd(SqlEquals(Some(p.0), user), SqlEquals(Some(p.1), Some(article))) == True
  }

  /** The CASE takes its first branch only when `_follower_id = NULL` is true, which it never is. */
  function ProfileRow(t: Tables, u: int, viewer: Option<int>): Profile
    requires u in t.users
  {
    var row := t.users[u];
    Profile(row.username, row.bio, row.image,
            if SqlEquals(viewer, None) == True then false else IsFollowing(t, viewer, u))
  }

  function GetProfile(t: Tables, users: seq<int>, id: int, viewer: Option<int>): seq<Profile>
    requires Within(users, t.users.Keys)
  {
    if users == [] then []
    else (if users[0] == id then [ProfileRow(t, users[0], viewer)] else []) + GetProfile(t, users[1..], id, viewer)
  }

  function GetUserByUsername(t: Tables, users: seq<int>, name: string): seq<(int, User)>
    requires Within(users, t.users.Keys)
  {
    if users == [] then []
    else
      (if SameName(t.users[users[0]].username, name) then [(users[0], t.users[users[0]])] else [])
      + GetUserByUsername(t, users[1..], name)
  }

  function GetUserByEmail(t: Tables, users: seq<int>, email: string): seq<(int, User)>
    requires Within(users, t.users.Keys)
  {
    if users == [] then []
    else
      (if t.users[users[0]].email == email then [(users[0], t.users[users[0]])] else [])
      + GetUserByEmail(t, users[1..], email)
  }

  function GetProfileByUsername(t: Tables, users: seq<int>, name: string, viewer: Option<int>): seq<Profile>
    requires Within(users, t.users.Keys)
  {
    if users == [] then []
    else
      (if SameName(t.users[users[0]].username, name) then [ProfileRow(t, users[0], viewer)] else [])
      + GetProfileByUsername(t, users[1..], name, viewer)
  }

  // ---- tags ----

  /** tags AS t ON t.tag_id = tag, selecting t.name. */
  function TagRows(t: Tables, tags: seq<int>, tag: int): seq<string>
    requires Within(tags, t.tags.Keys)
  {
    if tags == [] then []
    else (if tags[0] == tag then [t.tags[tags[0]]] else []) + TagRows(t, tags[1..], tag)
  }

  function TagNameRows(t: Tables, links: seq<(int, int)>, tags: seq<int>, article: int): seq<string>
    requires Within(tags, t.tags.Keys)
  {
    if links == [] then []
    else
      (if links[0].0 == article then TagRows(t, tags, links[0].1) else []) + TagNameRows(t, links[1..], tags, article)
  }

  function GetArticleTagList(t: Tables, sc: Scan, article: int): seq<string>
    requires ScanOf(sc, t)
  {
    OrderBy(Collates, TagNameRows(t, sc.articleTags, sc.tags, article))
  }

  /** get_tags has no DISTINCT: a name comes back once for every article that carries it. */
  function GetTags(t: Tables, links: seq<(int, int)>, tags: seq<int>): seq<string>
    requires Within(tags, t.tags.Keys)
  {
    if links == [] then [] else TagRows(t, tags, links[0].1) + GetTags(t, links[1..], tags)
  }

  // ---- one article ----

  function GetArticleIdBySlug(t: Tables, articles: seq<int>, slug: string): seq<int>
    requires Within(articles, t.articles.Keys)
  {
    if articles == [] then []
    else
      (if t.articles[articles[0]].slug == slug then [articles[0]] else []) + GetArticleIdBySlug(t, articles[1..], slug)
  }

  function CountFavorites(t: Tables, article: int): int {
    |set p | p in t.favorites && p.1 == article|
  }

  /** A set-returning get_profile in the select list repeats the row once per profile, and drops it without one. */
  function PerProfile(t: Tables, a: int, tagList: seq<string>, favorited: bool, count: int, profiles: seq<Profile>)
    : seq<ArticleView>
    requires a in t.articles
  {
    if profiles == [] then []
    else
      var row := t.articles[a];
      [ArticleView(a, row.title, row.slug, row.description, row.body, row.createdAt, row.updatedAt,
                   tagList, favorited, count, profiles[0])]
      + PerProfile(t, a, tagList, favorited, count, profiles[1..])
  }

  function ArticleRows(t: Tables, sc: Scan, articles: seq<int>, id: int, viewer: Option<int>): seq<ArticleView>
    requires ScanOf(sc, t) && Within(articles, t.articles.Keys)
  {
    if articles == [] then []
    else
      (if articles[0] == id then
         PerProfile(t, articles[0], GetArticleTagList(t, sc, id), IsFavorited(t, id, viewer), CountFavorites(t, id),
                    GetProfile(t, sc.users, t.articles[articles[0]].author, viewer))
       else [])
      + ArticleRows(t, sc, articles[1..], id, viewer)
  }

  function GetArticle(t: Tables, sc: Scan, id: int, viewer: Option<int>): seq<ArticleView>
    requires ScanOf(sc, t)
  {
    ArticleRows(t, sc, sc.articles, id, viewer)
  }

  /** SELECT ... INTO keeps the first row, or NULL, which then matches no article. */
  function GetArticleBySlug(t: Tables, sc: Scan, slug: string, viewer: Option<int>): seq<ArticleView>
    requires ScanOf(sc, t)
  {
    var ids := GetArticleIdBySlug(t, sc.articles, slug);
    if ids == [] then [] else GetArticle(t, sc, ids[0], viewer)
  }

  // ---- the list and the feed ----

  predicate CarriesTag(t: Tables, a: int, tag: string) {
    exists p, g | p in t.articleTags && g in t.tags :: p.1 == g && t.tags[g] == tag && p.0 == a
  }

  predicate FavoritedByName(t: Tables, a: int, name: string) {
    exists p, u | p in t.favorites && u in t.users :: p.0 == u && SameName(t.users[u].username, name) && p.1 == a
  }

  /** The WHERE clause on the joined row of article `a` and user `u`. */
  predicate Selected(t: Tables, f: Filters, a: int, u: int)
    requires u in t.users
  {
    && (f.tag.None? || CarriesTag(t, a, f.tag.value))
    && (f.author.None? || SameName(t.users[u].username, f.author.value))
    && (f.favoritedBy.None? || FavoritedByName(t, a, f.favoritedBy.value))
  }

  /** The rows of one article, joined with every user it matches.  is_favorited_article gets no user here. */
  function JoinAuthors(t: Tables, sc: Scan, f: Filters, viewer: Option<int>, a: int, users: seq<int>)
    : seq<ArticleView>
    requires ScanOf(sc, t) && a in t.articles && Within(users, t.users.Keys)
  {
    if users == [] then []
    else
      (if t.articles[a].author == users[0] && Selected(t, f, a, users[0]) then
         PerProfile(t, a, GetArticleTagList(t, sc, a), IsFavorited(t, a, None), CountFavorites(t, a),
                    GetProfile(t, sc.users, t.articles[a].author, viewer))
       else [])
      + JoinAuthors(t, sc, f, viewer, a, users[1..])
  }

  function ListRows(t: Tables, sc: Scan, f: Filters, viewer: Option<int>, articles: seq<int>): seq<ArticleView>
    requires ScanOf(sc, t) && Within(articles, t.articles.Keys)
  {
    if articles == [] then []
    else JoinAuthors(t, sc, f, viewer, articles[0], sc.users) + ListRows(t, sc, f, viewer, articles[1..])
  }

  predicate NewerFirst(x: ArticleView, y: ArticleView) {
    x.createdAt >= y.createdAt
  }

  /** All selected articles, newest first, before LIMIT and OFFSET. */
  function ListAll(t: Tables, sc: Scan, f: Filters, viewer: Option<int>): seq<ArticleView>
    requires ScanOf(sc, t)
  {
    OrderBy(NewerFirst, ListRows(t, sc, f, viewer, sc.articles))
  }

  function GetArticles(t: Tables, sc: Scan, f: Filters, viewer: Option<int>, limit: Option<int>, offset: Option<int>)
    : Page<ArticleView>
    requires ScanOf(sc, t)
  {
    Window(ListAll(t, sc, f, viewer), Some(limit.GetOr(20)), offset.GetOr(0))
  }

  /** The subquery compares the column article_id with itself, so it counts every favorite there is. */
  function CountFavoritesInFeed(t: Tables, article: int): int {
    |set p | p in t.favorites && p.1 == p.1|
  }

  /** author_id IN (SELECT followed FROM followers WHERE follower = _user_id). */
  predicate FollowedBy(t: Tables, user: int, author: int) {
    exists p | p in t.followers :: p.0 == user && p.1 == author
  }

  function FeedRowsOf(t: Tables, sc: Scan, user: int, a: int): seq<ArticleView>
    requires ScanOf(sc, t) && a in t.articles
  {
    if FollowedBy(t, user, t.articles[a].author) then
      PerProfile(t, a, GetArticleTagList(t, sc, a), IsFavorited(t, a, None), CountFavoritesInFeed(t, a),
                 GetProfile(t, sc.users, t.articles[a].author, Some(user)))
    else []
  }

  function FeedRows(t: Tables, sc: Scan, user: int, articles: seq<int>): seq<ArticleView>
    requires ScanOf(sc, t) && Within(articles, t.articles.Keys)
  {
    if articles == [] then [] else FeedRowsOf(t, sc, user, articles[0]) + FeedRows(t, sc, user, articles[1..])
  }

  function FeedAll(t: Tables, sc: Scan, user: int): seq<ArticleView>
    requires ScanOf(sc, t)
  {
    OrderBy(NewerFirst, FeedRows(t, sc, user, sc.articles))
  }

  /** The handler always passes both bounds, NULL when absent: LIMIT NULL is no limit, OFFSET NULL is 0. */
  function GetFeed(t: Tables, sc: Scan, user: int, limit: Option<int>, offset: Option<int>): Page<ArticleView>
    requires ScanOf(sc, t)
  {
    Window(FeedAll(t, sc, user), limit, offset.GetOr(0))
  }

  // ---- comments ----

  function CommentPerProfile(t: Tables, c: int, profiles: seq<Profile>): seq<CommentView>
    requires c in t.comments
  {
    if profiles == [] then []
    else
      var row := t.comments[c];
      [CommentView(c, row.createdAt, row.updatedAt, row.body, profiles[0])] + CommentPerProfile(t, c, profiles[1..])
  }

  /** articles ON articles.article_id = comments.article_id, filtered by slug unless it is absent. */
  function CommentRows(t: Tables, sc: Scan, c: int, articles: seq<int>, slug: Option<string>, viewer: Option<int>)
    : seq<CommentView>
    requires ScanOf(sc, t) && c in t.comments && Within(articles, t.articles.Keys)
  {
    if articles == [] then []
    else
      (if articles[0] == t.comments[c].article && (slug.None? || t.articles[articles[0]].slug == slug.value) then
         CommentPerProfile(t, c, GetProfile(t, sc.users, t.comments[c].author, viewer))
       else [])
      + CommentRows(t, sc, c, articles[1..], slug, viewer)
  }

  function SelectComments(t: Tables, sc: Scan, comments: seq<int>, id: Option<int>, slug: Option<string>,
                          viewer: Option<int>): seq<CommentView>
    requires ScanOf(sc, t) && Within(comments, t.comments.Keys)
  {
    if comments == [] then []
    else
      (if id.None? || comments[0] == id.value then CommentRows(t, sc, comments[0], sc.articles, slug, viewer) else [])
      + SelectComments(t, sc, comments[1..], id, slug, viewer)
  }

  function GetComment(t: Tables, sc: Scan, id: int, viewer: Option<int>): seq<CommentView>
    requires ScanOf(sc, t)
  {
    SelectComments(t, sc, sc.comments, Some(id), None, viewer)
  }

  function GetCommentsFromArticle(t: Tables, sc: Scan, slug: string, viewer: Option<int>): seq<CommentView>
    requires ScanOf(sc, t)
  {
    SelectComments(t, sc, sc.comments, None, Some(slug), viewer)
  }

  // ---- the JSON view of an article ----

  /** Assigning a 64-bit integer to a 32-bit field keeps the low 32 bits. */
  function NarrowToInt32(n: int): int {
    (n + 0x8000_0000) % 0x1_0000_0000 - 0x8000_0000
  }

  datatype ArticleDto = ArticleDto(
    slug: string, title: string, description: string, body: string, tagList: seq<string>,
    createdAt: int, updatedAt: int, favoritesCount: int, favorited: bool, author: Profile)

  function ParseArticle(v: ArticleView): ArticleDto {
    ArticleDto(v.slug, v.title, v.description, v.body, v.tagList, v.createdAt, v.updatedAt,
               NarrowToInt32(v.favoritesCount), v.favorited, v.author)
  }
}

/** What a reader should see, stated on the abstract store, and the proof that the queries return exactly that. */
module Views {
  import opened Prelude
  import opened Text
  import opened Schema
  import opened Mutators
  import opened Rows
  import opened Queries
  import opened IntegrityProofs
  import opened AbstractStore
  import opened Refinement

  // ---- the reference views ----

  predicate StrictlyBefore(a: string, b: string) {
    Collates(a, b) && a != b
  }

  predicate ComesFirst(m: string, names: set<string>) {
    m in names && forall n | n in names :: Collates(m, n)
  }

  ghost function Least(names: set<string>): (m: string)
    requires names != {}
    ensures ComesFirst(m, names)
  {
    LeastExists(names);
    var m :| ComesFirst(m, names);
    m
  }

  lemma {:induction false} LeastExists(names: set<string>)
    requires names != {}
    ensures exists m :: ComesFirst(m, names)
  {
    var x :| x in names;
    if names == {x} {
      assert ComesFirst(x, names);
    } else {
      LeastExists(names - {x});
      var m :| ComesFirst(m, names - {x});
      if Collates(m, x) {
        assert ComesFirst(m, names);
      } else {
        assert Collates(x, m);
        forall n | n in names ensures Collates(x, n) {
          if n != x {
            assert Collates(m, n);
          }
        }
        assert ComesFirst(x, names);
      }
    }
  }

  /** The names of a set, each once, in collation order. */
  ghost function SortedNames(names: set<string>): (r: seq<string>)
    ensures SortedBy(StrictlyBefore, r)
    ensures forall n :: n in r <==> n in names
  {
    if names == {} then [] else [Least(names)] + SortedNames(names - {Least(names)})
  }

  function ProfileOf(s: Store, u: int, viewer: Option<int>): Profile
    requires u in s.users
  {
    Profile(s.users[u].username, s.users[u].bio, s.users[u].image, viewer.Some? && (viewer.value, u) in s.follows)
  }

  /** An article as its page shows it. */
  ghost function ViewOf(s: Store, a: int, viewer: Option<int>): ArticleView
    requires a in s.posts && s.posts[a].row.author in s.users
  {
    var p := s.posts[a];
    ArticleView(a, p.row.title, p.row.slug, p.row.description, p.row.body, p.row.createdAt, p.row.updatedAt,
                SortedNames(p.tags), viewer.Some? && viewer.value in p.fans, |p.fans|,
                ProfileOf(s, p.row.author, viewer))
  }

  // ---- three-valued logic and counting ----

  /** Although no comparison with NULL is true, a profile says "following" exactly when the viewer follows. */
  lemma FollowingIsMembership(t: Tables, viewer: Option<int>, u: int)
    ensures IsFollowing(t, viewer, u) <==> viewer.Some? && (viewer.value, u) in t.followers
    ensures u in t.users ==> (ProfileRow(t, u, viewer).following <==> viewer.Some? && (viewer.value, u) in t.followers)
  {
    if viewer.Some? && (viewer.value, u) in t.followers {
      var p := (viewer.value, u);
      assert SqlAnd(SqlEquals(Some(p.0), viewer), SqlEquals(Some(p.1), Some(u))) == True;
    }
  }

  lemma FavoritedIsMembership(t: Tables, a: int, user: Option<int>)
    ensures IsFavorited(t, a, user) <==> user.Some? && user.value in Fans(t, a)
  {
    FansAreFavorites(t);
    if user.Some? && (user.value, a) in t.favorites {
      var p := (user.value, a);
      assert SqlAnd(SqlEquals(Some(p.0), user), SqlEquals(Some(p.1), Some(a))) == True;
    }
  }

  lemma {:induction false} PairsCountAsFirsts(pairs: set<(int, int)>, a: int)
    requires forall p | p in pairs :: p.1 == a
    ensures |pairs| == |set p | p in pairs :: p.0|
  {
    if pairs != {} {
      var q :| q in pairs;
      var rest := pairs - {q};
      PairsCountAsFirsts(rest, a);
      assert q.0 !in set p | p in rest :: p.0;
      assert (set p | p in pairs :: p.0) == (set p | p in rest :: p.0) + {q.0};
    }
  }

  lemma CountIsFans(t: Tables, a: int)
    ensures CountFavorites(t, a) == |Fans(t, a)|
  {
    var pairs := set p | p in t.favorites && p.1 == a;
    PairsCountAsFirsts(pairs, a);
    assert Fans(t, a) == set p | p in pairs :: p.0;
  }

  // ---- joins on keys ----

  lemma {:induction false} OneProfile(t: Tables, users: seq<int>, id: int, viewer: Option<int>)
    requires Within(users, t.users.Keys) && NoDuplicates(users)
    ensures GetProfile(t, users, id, viewer) == if id in users then [ProfileRow(t, id, viewer)] else []
  {
    if users != [] {
      OneProfile(t, users[1..], id, viewer);
    }
  }

  lemma {:induction false} OneTag(t: Tables, tags: seq<int>, g: int)
    requires Within(tags, t.tags.Keys) && NoDuplicates(tags)
    ensures TagRows(t, tags, g) == if g in tags then [t.tags[g]] else []
  {
    if tags != [] {
      OneTag(t, tags[1..], g);
    }
  }

  lemma ProfilesAgree(db: Db, sc: Scan, u: int, viewer: Option<int>)
    requires ScanOf(sc, db.tables) && u in db.tables.users
    ensures GetProfile(db.tables, sc.users, u, viewer) == [ProfileOf(Abstract(db), u, viewer)]
  {
    OneProfile(db.tables, sc.users, u, viewer);
    FollowingIsMembership(db.tables, viewer, u);
  }

  // ---- tag lists ----

  /** The join lists each name of the article once: links are distinct pairs and tag names are unique. */
  lemma {:induction false} TagNameRowsFacts(t: Tables, s: Serials, links: seq<(int, int)>, tags: seq<int>, a: int)
    requires LinksOk(t) && TagsOk(t, s) && Enumerates(tags, t.tags.Keys)
    requires NoDuplicates(links) && forall p | p in links :: p in t.articleTags
    ensures
      var r := TagNameRows(t, links, tags, a);
      && NoDuplicates(r)
      && (forall n :: n in r <==> exists g :: (a, g) in links && t.tags[g] == n)
  {
    hide LinksOk, TagsOk, TagRows;
    if links != [] {
      var link, rest := links[0], links[1..];
      TagNameRowsFacts(t, s, rest, tags, a);
      OneMoreTagRow(t, s, link, rest, tags, a);
      assert forall p :: p in links <==> p == link || p in rest;
    }
  }

  lemma OneMoreTagRow(t: Tables, s: Serials, link: (int, int), rest: seq<(int, int)>, tags: seq<int>, a: int)
    requires LinksOk(t) && TagsOk(t, s) && Enumerates(tags, t.tags.Keys)
    requires link in t.articleTags && link !in rest && forall p | p in rest :: p in t.articleTags
    requires forall n :: n in TagNameRows(t, rest, tags, a) <==> exists g :: (a, g) in rest && t.tags[g] == n
    ensures
      var r := if link.0 == a then TagRows(t, tags, link.1) else [];
      if link.0 == a then
        && link == (a, link.1) && link.1 in t.tags && r == [t.tags[link.1]]
        && t.tags[link.1] !in TagNameRows(t, rest, tags, a)
      else r == []
  {
    hide TagNameRows;
    if link.0 == a {
      var g := link.1;
      assert g in t.tags;
      OneTag(t, tags, g);
      forall h | (a, h) in rest ensures t.tags[h] != t.tags[g] {
        assert (a, h) in t.articleTags;
      }
    }
  }

  /** Sorting different names under the collation gives the one sequence that lists them in order. */
  lemma SortingNames(rows: seq<string>, names: set<string>)
    requires NoDuplicates(rows) && forall n :: n in rows <==> n in names
    ensures OrderBy(Collates, rows) == SortedNames(names)
  {
    var list := OrderBy(Collates, rows);
    OrderBySorts(Collates, rows);
    SameElements(list, rows);
    PermutationKeepsNoDuplicates(rows, list);
    forall i, j | 0 <= i < j < |list| ensures StrictlyBefore(list[i], list[j]) {
    }
    StrictOrderDetermines(StrictlyBefore, list, SortedNames(names));
  }

  lemma TagListsAgree(db: Db, sc: Scan, a: int)
    requires Integrity(db) && ScanOf(sc, db.tables)
    ensures GetArticleTagList(db.tables, sc, a) == SortedNames(TagNames(db.tables, a))
  {
    var t := db.tables;
    var rows := TagNameRows(t, sc.articleTags, sc.tags, a);
    TagNameRowsFacts(t, db.serials, sc.articleTags, sc.tags, a);
    forall n ensures n in rows <==> n in TagNames(t, a) {
      if n in rows {
        var g :| (a, g) in sc.articleTags && t.tags[g] == n;
        var p := (a, g);
        assert p in t.articleTags;
      }
      if n in TagNames(t, a) {
        var p :| p in t.articleTags && p.0 == a && p.1 in t.tags && t.tags[p.1] == n;
        var g := p.1;
        assert p == (a, g) && (a, g) in sc.articleTags && t.tags[g] == n;
      }
    }
    SortingNames(rows, TagNames(t, a));
  }

  // ---- one article ----

  lemma AuthorsExist(db: Db)
    requires Integrity(db)
    ensures forall a | a in Abstract(db).posts :: Abstract(db).posts[a].row.author in Abstract(db).users
  {
    AbstractRows(db);
  }

  /** The row the queries build for an article, with the flags and counts they pass. */
  lemma OneRow(db: Db, sc: Scan, a: int, viewer: Option<int>, favorited: bool, count: int)
    requires Integrity(db) && ScanOf(sc, db.tables) && a in db.tables.articles
    ensures Abstract(db).posts[a].row.author in Abstract(db).users
    ensures
      PerProfile(db.tables, a, GetArticleTagList(db.tables, sc, a), favorited, count,
                 GetProfile(db.tables, sc.users, db.tables.articles[a].author, viewer))
      == [ViewOf(Abstract(db), a, viewer).(favorited := favorited, favoritesCount := count)]
  {
    AbstractRows(db);
    TagListsAgree(db, sc, a);
    ProfilesAgree(db, sc, db.tables.articles[a].author, viewer);
  }

  lemma FullRow(db: Db, sc: Scan, a: int, viewer: Option<int>)
    requires Integrity(db) && ScanOf(sc, db.tables) && a in db.tables.articles
    ensures Abstract(db).posts[a].row.author in Abstract(db).users
    ensures
      PerProfile(db.tables, a, GetArticleTagList(db.tables, sc, a), IsFavorited(db.tables, a, viewer),
                 CountFavorites(db.tables, a),
                 GetProfile(db.tables, sc.users, db.tables.articles[a].author, viewer))
      == [ViewOf(Abstract(db), a, viewer)]
  {
    AbstractRows(db);
    OneRow(db, sc, a, viewer, IsFavorited(db.tables, a, viewer), CountFavorites(db.tables, a));
    FavoritedIsMembership(db.tables, a, viewer);
    CountIsFans(db.tables, a);
  }

  lemma {:induction false} ArticleRowsAgree(db: Db, sc: Scan, articles: seq<int>, id: int, viewer: Option<int>)
    requires Integrity(db) && ScanOf(sc, db.tables)
    requires Within(articles, db.tables.articles.Keys) && NoDuplicates(articles)
    ensures id in articles ==> id in Abstract(db).posts && Abstract(db).posts[id].row.author in Abstract(db).users
    ensures
      ArticleRows(db.tables, sc, articles, id, viewer)
      == if id in articles then [ViewOf(Abstract(db), id, viewer)] else []
  {
    if articles != [] {
      ArticleRowsAgree(db, sc, articles[1..], id, viewer);
      if articles[0] == id {
        FullRow(db, sc, id, viewer);
      }
    }
  }

  /** get_article_with_author_profile returns the page of the article, once, or no row when there is none. */
  lemma ArticlesAgree(db: Db, sc: Scan, id: int, viewer: Option<int>)
    requires Integrity(db) && ScanOf(sc, db.tables)
    ensures id in Abstract(db).posts ==> Abstract(db).posts[id].row.author in Abstract(db).users
    ensures
      GetArticle(db.tables, sc, id, viewer)
      == if id in Abstract(db).posts then [ViewOf(Abstract(db), id, viewer)] else []
  {
    AbstractRows(db);
    ArticleRowsAgree(db, sc, sc.articles, id, viewer);
  }

  lemma {:induction false} SlugRows(t: Tables, s: Serials, articles: seq<int>, slug: string)
    requires ArticlesOk(t, s) && Within(articles, t.articles.Keys) && NoDuplicates(articles)
    ensures
      GetArticleIdBySlug(t, articles, slug)
      == match ArticleAt(t, slug)
         case None => []
         case Some(a) => if a in articles then [a] else []
  {
    if articles != [] {
      var at, a := ArticleAt(t, slug), articles[0];
      SlugRows(t, s, articles[1..], slug);
      assert a in t.articles && (t.articles[a].slug == slug <==> at == Some(a));
      assert forall x :: x in articles <==> x == a || x in articles[1..];
    }
  }

  lemma SlugFinds(db: Db, sc: Scan, slug: string)
    requires Integrity(db) && ScanOf(sc, db.tables)
    ensures
      GetArticleIdBySlug(db.tables, sc.articles, slug)
      == match ArticleAt(db.tables, slug)
         case None => []
         case Some(a) => [a]
  {
    SlugRows(db.tables, db.serials, sc.articles, slug);
  }

  /** The by-slug page is the page of the one article at that slug. */
  lemma ArticlesBySlugAgree(db: Db, sc: Scan, slug: string, viewer: Option<int>)
    requires Integrity(db) && ScanOf(sc, db.tables)
    ensures forall a | a in Abstract(db).posts :: Abstract(db).posts[a].row.author in Abstract(db).users
    ensures
      GetArticleBySlug(db.tables, sc, slug, viewer)
      == match PostAt(Abstract(db), slug)
         case None => []
         case Some(a) => [ViewOf(Abstract(db), a, viewer)]
  {
    AuthorsExist(db);
    LookupsAgree(db, slug);
    SlugRows(db.tables, db.serials, sc.articles, slug);
    var at := ArticleAt(db.tables, slug);
    if at.Some? {
      ArticlesAgree(db, sc, at.value, viewer);
    }
  }

  // ---- users by name ----

  ghost function UserNamed(users: map<int, User>, name: string): (r: Option<int>)
    ensures r.Some? ==> r.value in users && SameName(users[r.value].username, name)
    ensures r.None? ==> forall u | u in users :: !SameName(users[u].username, name)
  {
    if exists u :: u in users && SameName(users[u].username, name) then
      var u :| u in users && SameName(users[u].username, name);
      Some(u)
    else None
  }

  lemma {:induction false} NamedRows(t: Tables, s: Serials, users: seq<int>, name: string, viewer: Option<int>)
    requires UsersOk(t, s) && Within(users, t.users.Keys) && NoDuplicates(users)
    ensures
      var at := UserNamed(t.users, name);
      && GetUserByUsername(t, users, name)
         == (if at.Some? && at.value in users then [(at.value, t.users[at.value])] else [])
      && GetProfileByUsername(t, users, name, viewer)
         == (if at.Some? && at.value in users then [ProfileRow(t, at.value, viewer)] else [])
  {
    if users != [] {
      var at, u := UserNamed(t.users, name), users[0];
      NamedRows(t, s, users[1..], name, viewer);
      assert u in t.users && (SameName(t.users[u].username, name) <==> at == Some(u));
      assert forall x :: x in users <==> x == u || x in users[1..];
    }
  }

  ghost function AccountAt(users: map<int, User>, email: string): (r: Option<int>)
    ensures r.Some? ==> r.value in users && users[r.value].email == email
    ensures r.None? ==> forall u | u in users :: users[u].email != email
  {
    if exists u :: u in users && users[u].email == email then
      var u :| u in users && users[u].email == email;
      Some(u)
    else None
  }

  /** An e-mail address matches at most one account. */
  lemma {:induction false} EmailRows(t: Tables, s: Serials, users: seq<int>, email: string)
    requires UsersOk(t, s) && Within(users, t.users.Keys) && NoDuplicates(users)
    ensures
      var at := AccountAt(t.users, email);
      GetUserByEmail(t, users, email)
      == if at.Some? && at.value in users then [(at.value, t.users[at.value])] else []
  {
    if users != [] {
      var at, u := AccountAt(t.users, email), users[0];
      EmailRows(t, s, users[1..], email);
      assert u in t.users && (t.users[u].email == email <==> at == Some(u));
      assert forall x :: x in users <==> x == u || x in users[1..];
    }
  }

  /** A user name matches at most one account whatever its case, and its profile is the reference profile. */
  lemma NamedProfilesAgree(db: Db, sc: Scan, name: string, viewer: Option<int>)
    requires Integrity(db) && ScanOf(sc, db.tables)
    ensures
      GetProfileByUsername(db.tables, sc.users, name, viewer)
      == match UserNamed(db.tables.users, name)
         case None => []
         case Some(u) => [ProfileOf(Abstract(db), u, viewer)]
  {
    NamedRows(db.tables, db.serials, sc.users, name, viewer);
    var at := UserNamed(db.tables.users, name);
    if at.Some? {
      FollowingIsMembership(db.tables, viewer, at.value);
    }
  }

  // ---- comments ----

  /** A comment as the page of its article shows it. */
  function RemarkView(s: Store, a: int, c: int, viewer: Option<int>): CommentView
    requires a in s.posts && c in s.posts[a].remarks && s.posts[a].remarks[c].author in s.users
  {
    var r := s.posts[a].remarks[c];
    CommentView(c, r.createdAt, r.updatedAt, r.body, ProfileOf(s, r.author, viewer))
  }

  lemma RemarksAreComments(db: Db, c: int)
    requires Integrity(db) && c in db.tables.comments
    ensures
      var s, row := Abstract(db), db.tables.comments[c];
      && row.article in s.posts && c in s.posts[row.article].remarks
      && s.posts[row.article].remarks[c] == RemarkOf(row) && row.author in s.users
  {
    AbstractRows(db);
    assert db.tables.comments[c].article in db.tables.articles;
  }

  lemma {:induction false} CommentJoinsOnKey(
      t: Tables, sc: Scan, c: int, articles: seq<int>, slug: Option<string>, viewer: Option<int>)
    requires ScanOf(sc, t) && c in t.comments && Within(articles, t.articles.Keys) && NoDuplicates(articles)
    ensures
      var a := t.comments[c].article;
      CommentRows(t, sc, c, articles, slug, viewer)
      == if a in articles && (slug.None? || t.articles[a].slug == slug.value)
         then CommentPerProfile(t, c, GetProfile(t, sc.users, t.comments[c].author, viewer)) else []
  {
    if articles != [] {
      CommentJoinsOnKey(t, sc, c, articles[1..], slug, viewer);
    }
  }

  lemma CommentJoinsOneArticle(db: Db, sc: Scan, c: int, slug: Option<string>, viewer: Option<int>)
    requires Integrity(db) && ScanOf(sc, db.tables) && c in db.tables.comments
    ensures
      var a, s := db.tables.comments[c].article, Abstract(db);
      && a in s.posts && c in s.posts[a].remarks && s.posts[a].remarks[c].author in s.users
      && CommentRows(db.tables, sc, c, sc.articles, slug, viewer)
         == if slug.None? || s.posts[a].row.slug == slug.value then [RemarkView(s, a, c, viewer)] else []
  {
    RemarksAreComments(db, c);
    AbstractRows(db);
    CommentJoinsOnKey(db.tables, sc, c, sc.articles, slug, viewer);
    ProfilesAgree(db, sc, db.tables.comments[c].author, viewer);
    assert db.tables.comments[c].article in sc.articles;
  }

  lemma {:induction false} SelectedComments(
      db: Db, sc: Scan, comments: seq<int>, id: Option<int>, slug: Option<string>, viewer: Option<int>)
    requires Integrity(db) && ScanOf(sc, db.tables)
    requires Within(comments, db.tables.comments.Keys) && NoDuplicates(comments)
    ensures
      var r, t := SelectComments(db.tables, sc, comments, id, slug, viewer), db.tables;
      && NoDuplicates(r)
      && (forall v :: v in r <==>
            && v.commentId in comments && (id.None? || v.commentId == id.value)
            && v in CommentRows(t, sc, v.commentId, sc.articles, slug, viewer))
      && (forall v | v in r :: v.commentId in comments)
  {
    hide Integrity, CommentRows;
    assert Within(sc.articles, db.tables.articles.Keys);
    hide ScanOf;
    if comments != [] {
      var c, rest := comments[0], comments[1..];
      SelectedComments(db, sc, rest, id, slug, viewer);
      RowsOfOneComment(db, sc, c, slug, viewer);
      var here := if id.None? || c == id.value then CommentRows(db.tables, sc, c, sc.articles, slug, viewer) else [];
      var there := SelectComments(db.tables, sc, rest, id, slug, viewer);
      assert c !in rest;
      assert forall x :: x in comments <==> x == c || x in rest;
      assert forall v | v in there :: v.commentId in rest;
      JoinedWithoutDuplicates(here, there, c);
    }
  }

  lemma RowsOfOneComment(db: Db, sc: Scan, c: int, slug: Option<string>, viewer: Option<int>)
    requires Integrity(db) && ScanOf(sc, db.tables) && c in db.tables.comments
    ensures |CommentRows(db.tables, sc, c, sc.articles, slug, viewer)| <= 1
    ensures forall v | v in CommentRows(db.tables, sc, c, sc.articles, slug, viewer) :: v.commentId == c
  {
    CommentJoinsOneArticle(db, sc, c, slug, viewer);
  }

  lemma JoinedWithoutDuplicates(here: seq<CommentView>, there: seq<CommentView>, c: int)
    requires |here| <= 1 && NoDuplicates(there)
    requires forall v | v in here :: v.commentId == c
    requires forall v | v in there :: v.commentId != c
    ensures NoDuplicates(here + there)
  {
    assert here != [] ==> here[0] in here;
  }

  /** get_comment returns the comment, once, or no row when there is none. */
  lemma {:induction false} CommentsAgree(db: Db, sc: Scan, comments: seq<int>, c: int, viewer: Option<int>)
    requires Integrity(db) && ScanOf(sc, db.tables)
    requires Within(comments, db.tables.comments.Keys) && NoDuplicates(comments)
    ensures
      c in comments ==>
        var a, s := db.tables.comments[c].article, Abstract(db);
        && a in s.posts && c in s.posts[a].remarks && s.posts[a].remarks[c].author in s.users
        && SelectComments(db.tables, sc, comments, Some(c), None, viewer) == [RemarkView(s, a, c, viewer)]
    ensures c !in comments ==> SelectComments(db.tables, sc, comments, Some(c), None, viewer) == []
  {
    if comments != [] {
      CommentsAgree(db, sc, comments[1..], c, viewer);
      if comments[0] == c {
        CommentJoinsOneArticle(db, sc, c, None, viewer);
      }
    }
  }

  lemma PageCommentsDiffer(db: Db, sc: Scan, slug: string, viewer: Option<int>)
    requires Integrity(db) && ScanOf(sc, db.tables)
    ensures NoDuplicates(GetCommentsFromArticle(db.tables, sc, slug, viewer))
  {
    hide Integrity;
    SelectedComments(db, sc, sc.comments, None, Some(slug), viewer);
  }

  /** The comments of a page: every remark on the post at this slug, and nothing else. */
  lemma PageCommentsAgree(db: Db, sc: Scan, slug: string, viewer: Option<int>, v: CommentView)
    requires Integrity(db) && ScanOf(sc, db.tables)
    ensures
      v in GetCommentsFromArticle(db.tables, sc, slug, viewer)
      <==> var s := Abstract(db);
           match PostAt(s, slug)
           case None => false
           case Some(a) => v.commentId in s.posts[a].remarks && s.posts[a].remarks[v.commentId].author in s.users
                           && v == RemarkView(s, a, v.commentId, viewer)
  {
    var t, s, c := db.tables, Abstract(db), v.commentId;
    SelectedComments(db, sc, sc.comments, None, Some(slug), viewer);
    AbstractRows(db);
    LookupsAgree(db, slug);
    if c in t.comments {
      CommentJoinsOneArticle(db, sc, c, Some(slug), viewer);
      var a := t.comments[c].article;
      if s.posts[a].row.slug == slug {
        SlugPicksOne(t, db.serials, slug, a);
      }
    }
  }
}

/** The normalised tables refine the abstract store: every statement commutes with the abstraction function. */
module Refinement {
  import opened Prelude
  import opened Schema
  import opened Mutators
  import opened IntegrityProofs
  import opened AbstractStore

  lemma AbstractRows(db: Db)
    ensures Abstract(db).posts.Keys == db.tables.articles.Keys
    ensures forall a | a in db.tables.articles :: Abstract(db).posts[a] == PostOf(db.tables, a)
  {
  }

  /** The parts of the abstract store that are the tables themselves. */
  lemma AbstractParts(db: Db, s: Store)
    ensures Abstract(db).users == db.tables.users && Abstract(db).follows == db.tables.followers
    ensures Abstract(db).serials == db.serials
    ensures s.users == db.tables.users && s.follows == db.tables.followers && s.serials == db.serials ==>
              s.posts == Abstract(db).posts ==> Abstract(db) == s
  {
  }

  /** Unique slugs make the two lookups agree. */
  lemma LookupsAgree(db: Db, slug: string)
    requires Integrity(db)
    ensures ArticleAt(db.tables, slug) == PostAt(Abstract(db), slug)
  {
    AbstractRows(db);
    var c, a := ArticleAt(db.tables, slug), PostAt(Abstract(db), slug);
    assert c.Some? ==> c.value in Abstract(db).posts;
    assert a.Some? ==> a.value in db.tables.articles;
  }

  lemma SlugTestsAgree(db: Db, slug: string, self: int)
    ensures SlugTaken(db.tables, slug, self) == SlugInUse(Abstract(db), slug, self)
  {
    AbstractRows(db);
    if SlugTaken(db.tables, slug, self) {
      var a :| a in db.tables.articles && a != self && db.tables.articles[a].slug == slug;
      assert a in Abstract(db).posts;
    }
    if SlugInUse(Abstract(db), slug, self) {
      var a :| a in Abstract(db).posts && a != self && Abstract(db).posts[a].row.slug == slug;
      assert a in db.tables.articles;
    }
  }

  /** Two tables give the same posts when every article has the same row, tags, fans and comments in both. */
  lemma SamePosts(db: Db, posts: map<int, Post>)
    requires posts.Keys == db.tables.articles.Keys
    requires forall a | a in posts :: posts[a] == PostOf(db.tables, a)
    ensures Abstract(db).posts == posts
  {
  }

  lemma UnchangedPosts(db: Db, db': Db)
    requires db'.tables.articles == db.tables.articles && db'.tables.articleTags == db.tables.articleTags
    requires db'.tables.tags == db.tables.tags && db'.tables.favorites == db.tables.favorites
    requires db'.tables.comments == db.tables.comments
    ensures Abstract(db').posts == Abstract(db).posts
  {
    SamePosts(db', Abstract(db).posts);
  }

  lemma RegisterCommutes(db: Db, username: string, email: string, hash: string)
    requires Integrity(db)
    ensures
      var c, a := AddUser(db, username, email, hash), Register(Abstract(db), username, email, hash);
      Abstract(c.db) == a.store && c.reply == a.reply
  {
    hide Integrity, Abstract, PostOf, UsernameTaken, EmailTaken;
    FreshIds(db);
    var c, a := AddUser(db, username, email, hash), Register(Abstract(db), username, email, hash);
    AbstractParts(db, Abstract(db));
    AbstractParts(c.db, a.store);
    UnchangedPosts(db, c.db);
  }

  lemma EditCommutes(db: Db, user: int, p: UserPatch)
    requires Integrity(db)
    ensures
      var c, a := UpdateUser(db, user, p), Edit(Abstract(db), user, p);
      Abstract(c.db) == a.store && c.reply == a.reply
  {
    hide Integrity, Abstract, PostOf, UsernameTaken, EmailTaken;
    var c, a := UpdateUser(db, user, p), Edit(Abstract(db), user, p);
    AbstractParts(db, Abstract(db));
    AbstractParts(c.db, a.store);
    UnchangedPosts(db, c.db);
  }

  /** How far the tag sequence moves and how the upsert ends, without going through it name by name. */
  lemma {:induction false} TagIdsAreDrawnInBulk(tags: map<int, string>, serial: int, names: seq<string>)
    requires 0 <= serial <= MAX_INT32
    ensures
      var r, drawn := InsertTags(tags, serial, names), serial + TagIdsDrawn(names);
      && r.serial == Min(drawn, MAX_INT32)
      && r.error == if drawn > MAX_INT32 then Some(SequenceExhausted)
                    else if FirstTooLong(names) < |names| then Some(StringTooLong) else None
    decreases |names|
  {
    if names != [] && serial < MAX_INT32 && !TooLong(names[0]) {
      var id := serial + 1;
      var next := if id in tags || NameTaken(tags, names[0]) then tags else tags[id := names[0]];
      TagIdsAreDrawnInBulk(next, id, names[1..]);
    }
  }

  /** Linking the new article to the tags table gives it exactly the requested names and touches no other article. */
  lemma LinksCarryTheNames(t: Tables, id: int, ins: TagInsert, names: seq<string>, t': Tables)
    requires LinksOk(t) && id !in t.articles
    requires t'.tags == ins.tags && t'.articleTags == t.articleTags + TagLinks(id, ins.tags, names)
    requires forall g | g in t.tags :: g in ins.tags && ins.tags[g] == t.tags[g]
    requires forall n | n in names :: NameTaken(ins.tags, n)
    ensures TagNames(t', id) == set n | n in names
    ensures forall a | a != id :: TagNames(t', a) == TagNames(t, a)
  {
    forall n | n in names ensures n in TagNames(t', id) {
      var g :| g in ins.tags && ins.tags[g] == n;
      var p := (id, g);
      assert p in t'.articleTags;
    }
    forall n | n in TagNames(t', id) ensures n in names {
      var p :| p in t'.articleTags && p.0 == id && p.1 in t'.tags && t'.tags[p.1] == n;
      var a := p.0;
      assert p !in t.articleTags;
    }
    forall a | a != id ensures TagNames(t', a) == TagNames(t, a) {
      forall n | n in TagNames(t, a) ensures n in TagNames(t', a) {
        var p :| p in t.articleTags && p.0 == a && p.1 in t.tags && t.tags[p.1] == n;
        var g := p.1;
        assert p in t'.articleTags && g in t'.tags;
      }
      forall n | n in TagNames(t', a) ensures n in TagNames(t, a) {
        var p :| p in t'.articleTags && p.0 == a && p.1 in t'.tags && t'.tags[p.1] == n;
        var g := p.1;
        assert p in t.articleTags && g in t.tags;
      }
    }
  }

  lemma PublishReplies(db: Db, m: Mutation, now: int)
    requires Integrity(db) && m.AddNewArticle?
    ensures
      var c, a := AddArticle(db, m, now), Publish(Abstract(db), m, now);
      c.reply == a.reply && c.db.serials == a.store.serials
  {
    hide Integrity, Abstract, SlugTaken, SlugInUse, InsertTags, TagLinks, FirstTooLong;
    hide UsersOk, ArticlesOk, TagsOk, TagTableOk, LinksOk, CommentsOk;
    var t, s := db.tables, db.serials;
    var id, names := s.articles + 1, m.tagList.GetOr([]);
    SlugTestsAgree(db, m.slug, 0);
    IntegrityParts(db);
    TagIdsAreDrawnInBulk(t.tags, s.tags, names);
    FreshIds(db);
    LinksAreFresh(t, id, InsertTags(t.tags, s.tags, names).tags, names);
    AbstractParts(db, Abstract(db));
  }

  lemma FailureKeepsTables(db: Db, m: Mutation, now: int)
    requires m.AddNewArticle?
    ensures AddArticle(db, m, now).reply.Error? ==> AddArticle(db, m, now).db.tables == db.tables
    ensures
      var t, t' := db.tables, AddArticle(db, m, now).db.tables;
      t'.users == t.users && t'.followers == t.followers
  {
    hide InsertTags, TagLinks, SlugTaken;
  }

  lemma PublishChangesPostsOnly(s: Store, m: Mutation, now: int)
    requires m.AddNewArticle?
    ensures
      var a, id := Publish(s, m, now), s.serials.articles + 1;
      var row := Article(m.title, m.slug, m.description, m.body, m.author, now, now);
      && a.store.users == s.users && a.store.follows == s.follows
      && a.store.posts == if a.reply.Error? then s.posts
                          else s.posts[id := Post(row, set n | n in m.tagList.GetOr([]), {}, map[])]
  {
    hide SlugInUse, FirstTooLong;
  }

  lemma PublishCommutes(db: Db, m: Mutation, now: int)
    requires Integrity(db) && m.AddNewArticle?
    ensures
      var c, a := AddArticle(db, m, now), Publish(Abstract(db), m, now);
      Abstract(c.db) == a.store && c.reply == a.reply
  {
    hide Integrity, Abstract, AddArticle, Publish;
    var c, a := AddArticle(db, m, now), Publish(Abstract(db), m, now);
    PublishReplies(db, m, now);
    FailureKeepsTables(db, m, now);
    PublishChangesPostsOnly(Abstract(db), m, now);
    AbstractParts(db, Abstract(db));
    AbstractParts(c.db, a.store);
    if c.reply.Error? {
      UnchangedPosts(db, c.db);
    } else {
      PublishedPosts(db, m, now);
    }
  }

  /** After a successful insert the posts are the old ones and the new one with its names. */
  lemma PublishedPosts(db: Db, m: Mutation, now: int)
    requires Integrity(db) && m.AddNewArticle? && !AddArticle(db, m, now).reply.Error?
    ensures
      var id, row := db.serials.articles + 1, Article(m.title, m.slug, m.description, m.body, m.author, now, now);
      Abstract(AddArticle(db, m, now).db).posts
      == Abstract(db).posts[id := Post(row, set n | n in m.tagList.GetOr([]), {}, map[])]
  {
    hide Integrity, Abstract;
    var t, s := db.tables, db.serials;
    var id, names := s.articles + 1, m.tagList.GetOr([]);
    var row := Article(m.title, m.slug, m.description, m.body, m.author, now, now);
    var c := AddArticle(db, m, now);
    var ins := InsertTags(t.tags, s.tags, names);
    IntegrityParts(db);
    FreshIds(db);
    LinksAreFresh(t, id, ins.tags, names);
    hide LinksOk, TagsOk, PostOf;
    PostsAfterPublish(db, c.db, id, row, names);
  }

  lemma PostsAfterPublish(db: Db, db': Db, id: int, row: Article, names: seq<string>)
    requires Integrity(db) && id !in db.tables.articles
    requires
      var t, t', ins := db.tables, db'.tables, InsertTags(db.tables.tags, db.serials.tags, names);
      && ins.error.None? && t'.tags == ins.tags && t'.articles == t.articles[id := row]
      && t'.articleTags == t.articleTags + TagLinks(id, ins.tags, names)
      && t'.favorites == t.favorites && t'.comments == t.comments
    ensures Abstract(db').posts == Abstract(db).posts[id := Post(row, set n | n in names, {}, map[])]
  {
    hide Integrity, Abstract, InsertTags, TagLinks;
    var t, t', ins := db.tables, db'.tables, InsertTags(db.tables.tags, db.serials.tags, names);
    IntegrityParts(db);
    InsertTagsFacts(t.tags, db.serials.tags, names);
    LinksCarryTheNames(t, id, ins, names, t');
    NothingYet(db, id);
    AbstractRows(db);
    hide LinksOk, TagsOk;
    var posts := Abstract(db).posts[id := Post(row, set n | n in names, {}, map[])];
    forall b | b in posts ensures posts[b] == PostOf(t', b) {
      assert Fans(t', b) == Fans(t, b);
      assert Remarks(t', b) == Remarks(t, b);
    }
    SamePosts(db', posts);
  }

  /** An id that no article has yet has no fans and no comments. */
  lemma NothingYet(db: Db, id: int)
    requires Integrity(db) && id !in db.tables.articles
    ensures Fans(db.tables, id) == {} && Remarks(db.tables, id) == map[]
  {
    forall p | p in db.tables.favorites ensures p.1 != id {
      var a := p.1;
      assert a in db.tables.articles;
    }
    forall c | c in db.tables.comments ensures db.tables.comments[c].article != id {
      assert db.tables.comments[c].article in db.tables.articles;
    }
  }

  lemma PostKeepsRow(t: Tables, a: int)
    requires a in t.articles
    ensures PostOf(t, a) == Post(t.articles[a], TagNames(t, a), Fans(t, a), Remarks(t, a))
  {
  }

  /** Writing the row of an article changes the row of that post and nothing else. */
  lemma ChangedRow(db: Db, a: int, row: Article)
    requires a in db.tables.articles
    ensures
      Abstract(db.(tables := db.tables.(articles := db.tables.articles[a := row]))).posts
      == Abstract(db).posts[a := Abstract(db).posts[a].(row := row)]
  {
    var db' := db.(tables := db.tables.(articles := db.tables.articles[a := row]));
    var posts := Abstract(db).posts[a := Abstract(db).posts[a].(row := row)];
    AbstractRows(db);
    hide Abstract;
    forall b | b in posts ensures posts[b] == PostOf(db'.tables, b) {
      assert TagNames(db'.tables, b) == TagNames(db.tables, b);
      assert Fans(db'.tables, b) == Fans(db.tables, b);
      assert Remarks(db'.tables, b) == Remarks(db.tables, b);
    }
    SamePosts(db', posts);
  }

  lemma ReviseCommutes(db: Db, slug: string, author: int, p: ArticlePatch, now: int)
    requires Integrity(db)
    ensures
      var c, a := UpdateArticle(db, slug, author, p, now), Revise(Abstract(db), slug, author, p, now);
      Abstract(c.db) == a.store && c.reply == a.reply
  {
    hide Integrity, Abstract, ArticleAt, PostAt, SlugTaken, SlugInUse, PostOf;
    var c, a := UpdateArticle(db, slug, author, p, now), Revise(Abstract(db), slug, author, p, now);
    LookupsAgree(db, slug);
    AbstractRows(db);
    AbstractParts(db, Abstract(db));
    AbstractParts(c.db, a.store);
    var at := ArticleAt(db.tables, slug);
    SamePosts(db, Abstract(db).posts);
    if at.Some? {
      PostKeepsRow(db.tables, at.value);
      SlugTestsAgree(db, PatchArticle(db.tables.articles[at.value], p, now).slug, at.value);
      ChangedRow(db, at.value, PatchArticle(db.tables.articles[at.value], p, now));
    }
  }

  lemma OwnedIsTheOneAt(db: Db, slug: string, author: int)
    requires Integrity(db)
    ensures OwnedAt(db.tables, slug, author) ==
            match ArticleAt(db.tables, slug)
            case None => {}
            case Some(a) => if db.tables.articles[a].author == author then {a} else {}
  {
    match ArticleAt(db.tables, slug)
    case None => assert OwnedAt(db.tables, slug, author) == {};
    case Some(a) =>
      forall b | b in OwnedAt(db.tables, slug, author) ensures b == a {
        assert db.tables.articles[b].slug == db.tables.articles[a].slug;
      }
  }

  lemma WithdrawCommutes(db: Db, slug: string, author: int)
    requires Integrity(db)
    ensures
      var c, a := DeleteArticle(db, slug, author), Withdraw(Abstract(db), slug, author);
      Abstract(c.db) == a.store && c.reply == a.reply
  {
    hide Integrity, Abstract, ArticleAt, PostAt, PostOf;
    var c, a := DeleteArticle(db, slug, author), Withdraw(Abstract(db), slug, author);
    var t := db.tables;
    LookupsAgree(db, slug);
    OwnedIsTheOneAt(db, slug, author);
    AbstractRows(db);
    AbstractParts(db, Abstract(db));
    AbstractParts(c.db, a.store);
    var at, gone := ArticleAt(t, slug), OwnedAt(t, slug, author);
    hide OwnedAt;
    if at.Some? {
      PostKeepsRow(t, at.value);
    }
    if gone == {} {
      NothingGone(t);
      UnchangedPosts(db, c.db);
    } else {
      FansAreFavorites(t);
      hide Fans;
      assert Fans(t, at.value) == {} <==> !exists p | p in t.favorites :: p.1 in gone by {
        FavoritesOf(t, at.value);
      }
      if c.reply == Void {
        RemovedArticle(db, at.value);
      }
    }
  }

  lemma NothingGone(t: Tables)
    ensures WithoutArticles(t, {}) == t
  {
  }

  lemma FavoritesOf(t: Tables, a: int)
    ensures Fans(t, a) == {} <==> forall p | p in t.favorites :: p.1 != a
  {
    forall p | p in t.favorites && p.1 == a ensures Fans(t, a) != {} {
      assert p.0 in Fans(t, a);
    }
  }

  /** Cascading takes one post away and leaves all others as they are. */
  lemma RemovedArticle(db: Db, a: int)
    requires a in db.tables.articles
    ensures Abstract(db.(tables := WithoutArticles(db.tables, {a}))).posts == Abstract(db).posts - {a}
  {
    var t, t' := db.tables, WithoutArticles(db.tables, {a});
    var posts := Abstract(db).posts - {a};
    AbstractRows(db);
    hide Abstract;
    forall b | b in posts ensures posts[b] == PostOf(t', b) {
      assert TagNames(t', b) == TagNames(t, b);
      assert Fans(t', b) == Fans(t, b);
      assert Remarks(t', b) == Remarks(t, b);
    }
    SamePosts(db.(tables := t'), posts);
  }

  /** A comment under a new id joins the comments of its own article only. */
  lemma InsertedComment(db: Db, id: int, row: Comment)
    requires id !in db.tables.comments && row.article in db.tables.articles
    ensures
      var t, posts := db.tables, Abstract(db).posts;
      var post := posts[row.article];
      Abstract(db.(tables := t.(comments := t.comments[id := row]))).posts
      == posts[row.article := post.(remarks := post.remarks[id := RemarkOf(row)])]
  {
    var t, posts := db.tables, Abstract(db).posts;
    var t' := t.(comments := t.comments[id := row]);
    var post := posts[row.article];
    var posts' := posts[row.article := post.(remarks := post.remarks[id := RemarkOf(row)])];
    forall b | b in posts' ensures posts'[b] == PostOf(t', b) {
      assert TagNames(t', b) == TagNames(t, b);
      assert Fans(t', b) == Fans(t, b);
      assert Remarks(t', b) == if b == row.article then Remarks(t, b)[id := RemarkOf(row)] else Remarks(t, b);
    }
    SamePosts(db.(tables := t'), posts');
  }

  lemma AddRemarkCommutes(db: Db, slug: string, body: string, user: int, now: int)
    requires Integrity(db)
    ensures
      var c, a := AddComment(db, slug, body, user, now), AddRemark(Abstract(db), slug, body, user, now);
      Abstract(c.db) == a.store && c.reply == a.reply
  {
    hide Integrity, Abstract, PostOf, ArticleAt, PostAt;
    var c, a := AddComment(db, slug, body, user, now), AddRemark(Abstract(db), slug, body, user, now);
    LookupsAgree(db, slug);
    FreshIds(db);
    AbstractParts(db, Abstract(db));
    AbstractParts(c.db, a.store);
    var drawn := db.(serials := c.db.serials);
    var at := ArticleAt(db.tables, slug);
    UnchangedPosts(db, drawn);
    if c.reply.Ids? {
      InsertedComment(drawn, db.serials.comments + 1, Comment(user, at.value, body, now, now));
    }
  }

  /** Deleting a comment takes it from the comments of its own article only. */
  lemma RemovedComment(db: Db, id: int)
    requires id in db.tables.comments && db.tables.comments[id].article in db.tables.articles
    ensures
      var t, posts, a := db.tables, Abstract(db).posts, db.tables.comments[id].article;
      Abstract(db.(tables := t.(comments := t.comments - {id}))).posts
      == posts[a := posts[a].(remarks := posts[a].remarks - {id})]
  {
    var t, posts, a := db.tables, Abstract(db).posts, db.tables.comments[id].article;
    var t' := t.(comments := t.comments - {id});
    var posts' := posts[a := posts[a].(remarks := posts[a].remarks - {id})];
    AbstractRows(db);
    hide Abstract;
    forall b | b in posts' ensures posts'[b] == PostOf(t', b) {
      assert TagNames(t', b) == TagNames(t, b);
      assert Fans(t', b) == Fans(t, b);
      assert Remarks(t', b) == if b == a then Remarks(t, b) - {id} else Remarks(t, b);
    }
    SamePosts(db.(tables := t'), posts');
  }

  /** is_comment_exist and the delete: whether the author has this remark on the post at the slug. */
  lemma CommentFilterAgrees(db: Db, comment: int, slug: string, author: int)
    requires Integrity(db)
    ensures
      CommentMatches(db.tables, comment, slug, author) <==>
      var s := Abstract(db);
      match PostAt(s, slug)
      case None => false
      case Some(a) => comment in s.posts[a].remarks && s.posts[a].remarks[comment].author == author
  {
    hide Integrity, ArticleAt, PostAt, Abstract;
    LookupsAgree(db, slug);
    AbstractRows(db);
  }

  lemma DropRemarkCommutes(db: Db, id: int, slug: string, author: int)
    requires Integrity(db)
    ensures
      var c, a := RemoveComment(db, id, slug, author), DropRemark(Abstract(db), id, slug, author);
      Abstract(c.db) == a.store && c.reply == a.reply
  {
    hide Integrity, Abstract, ArticleAt, PostAt;
    var c, a := RemoveComment(db, id, slug, author), DropRemark(Abstract(db), id, slug, author);
    LookupsAgree(db, slug);
    AbstractRows(db);
    AbstractParts(db, Abstract(db));
    AbstractParts(c.db, a.store);
    CommentFilterAgrees(db, id, slug, author);
    if CommentMatches(db.tables, id, slug, author) {
      RemovedComment(db, id);
    }
  }

  /** Changing favorites of one article changes the fans of that post and nothing else. */
  lemma ChangedFans(db: Db, favorites: set<(int, int)>, a: int, fans: set<int>)
    requires a in db.tables.articles
    requires forall u, b :: (u, b) in favorites <==> if b == a then u in fans else (u, b) in db.tables.favorites
    ensures
      Abstract(db.(tables := db.tables.(favorites := favorites))).posts
      == Abstract(db).posts[a := Abstract(db).posts[a].(fans := fans)]
  {
    hide Fans, TagNames, Remarks;
    var db' := db.(tables := db.tables.(favorites := favorites));
    var posts := Abstract(db).posts[a := Abstract(db).posts[a].(fans := fans)];
    AbstractRows(db);
    OnlyFavoritesDiffer(db.tables, favorites);
    hide Abstract;
    forall b | b in posts ensures posts[b] == PostOf(db'.tables, b) {
      FansAfter(db.tables, favorites, a, fans, b);
    }
    SamePosts(db', posts);
  }

  lemma OnlyFavoritesDiffer(t: Tables, favorites: set<(int, int)>)
    ensures forall b :: TagNames(t.(favorites := favorites), b) == TagNames(t, b)
    ensures forall b :: Remarks(t.(favorites := favorites), b) == Remarks(t, b)
  {
  }

  lemma FansAfter(t: Tables, favorites: set<(int, int)>, a: int, fans: set<int>, b: int)
    requires forall u, b :: (u, b) in favorites <==> if b == a then u in fans else (u, b) in t.favorites
    ensures Fans(t.(favorites := favorites), b) == if b == a then fans else Fans(t, b)
  {
    var t' := t.(favorites := favorites);
    FansAreFavorites(t);
    FansAreFavorites(t');
    hide Fans;
    var expected := if b == a then fans else Fans(t, b);
    forall u ensures u in Fans(t', b) <==> u in expected {
      assert u in Fans(t', b) <==> (u, b) in favorites;
      assert u in Fans(t, b) <==> (u, b) in t.favorites;
    }
    assert Fans(t', b) == expected;
  }

  lemma AddFanCommutes(db: Db, slug: string, user: int)
    requires Integrity(db)
    ensures
      var c, a := Favorite(db, slug, user), AddFan(Abstract(db), slug, user);
      Abstract(c.db) == a.store && c.reply == a.reply
  {
    hide Integrity, Abstract, Fans, ArticleAt, PostAt;
    var c, a := Favorite(db, slug, user), AddFan(Abstract(db), slug, user);
    LookupsAgree(db, slug);
    FansAreFavorites(db.tables);
    AbstractRows(db);
    AbstractParts(db, Abstract(db));
    AbstractParts(c.db, a.store);
    var at := ArticleAt(db.tables, slug);
    if at.Some? {
      ChangedFans(db, db.tables.favorites + {(user, at.value)}, at.value, Fans(db.tables, at.value) + {user});
    }
  }

  lemma DropFanCommutes(db: Db, slug: string, user: int)
    requires Integrity(db)
    ensures
      var c, a := Unfavorite(db, slug, user), DropFan(Abstract(db), slug, user);
      Abstract(c.db) == a.store && c.reply == a.reply
  {
    hide Integrity, Abstract, Fans, ArticleAt, PostAt;
    var c, a := Unfavorite(db, slug, user), DropFan(Abstract(db), slug, user);
    LookupsAgree(db, slug);
    FansAreFavorites(db.tables);
    AbstractRows(db);
    AbstractParts(db, Abstract(db));
    AbstractParts(c.db, a.store);
    var at := ArticleAt(db.tables, slug);
    if at.Some? {
      ChangedFans(db, db.tables.favorites - {(user, at.value)}, at.value, Fans(db.tables, at.value) - {user});
    }
  }

  lemma FansAreFavorites(t: Tables)
    ensures forall u, a :: u in Fans(t, a) <==> (u, a) in t.favorites
  {
    forall u, a ensures u in Fans(t, a) <==> (u, a) in t.favorites {
      if (u, a) in t.favorites {
        var p := (u, a);
        assert p.0 in Fans(t, a);
      }
    }
  }

  lemma FollowCommutes(db: Db, follower: int, followed: int)
    ensures
      var c, a := AddFollower(db, follower, followed), StartFollowing(Abstract(db), follower, followed);
      Abstract(c.db) == a.store && c.reply == a.reply
    ensures
      var c, a := RemoveFollower(db, follower, followed), StopFollowing(Abstract(db), follower, followed);
      Abstract(c.db) == a.store && c.reply == a.reply
  {
    UnchangedPosts(db, AddFollower(db, follower, followed).db);
    UnchangedPosts(db, RemoveFollower(db, follower, followed).db);
  }

  /** Each of the eleven statements, succeeding or failing, does to the posts what its abstract operation does. */
  lemma ApplyCommutes(m: Mutation, now: int, db: Db)
    requires Integrity(db)
    ensures
      var c, a := Apply(m, now, db), Perform(m, now, Abstract(db));
      Abstract(c.db) == a.store && c.reply == a.reply
  {
    hide Integrity, Abstract, AddUser, UpdateUser, AddArticle, UpdateArticle, DeleteArticle, AddComment, RemoveComment;
    hide Favorite, Unfavorite, AddFollower, RemoveFollower, Register, Edit, Publish, Revise, Withdraw, AddRemark;
    hide DropRemark, AddFan, DropFan, StartFollowing, StopFollowing;
    match m
    case AddNewUser(username, email, hash) => RegisterCommutes(db, username, email, hash);
    case UpdateUserById(user, p) => EditCommutes(db, user, p);
    case AddNewArticle(_, _, _, _, _, _) => PublishCommutes(db, m, now);
    case UpdateArticleBySlug(oldSlug, author, p) => ReviseCommutes(db, oldSlug, author, p, now);
    case DeleteArticleBySlug(slug, author) => WithdrawCommutes(db, slug, author);
    case AddCommentToArticle(slug, body, user) => AddRemarkCommutes(db, slug, body, user, now);
    case DeleteComment(comment, slug, author) => DropRemarkCommutes(db, comment, slug, author);
    case FavoriteArticle(slug, user) => AddFanCommutes(db, slug, user);
    case UnfavoriteArticle(slug, user) => DropFanCommutes(db, slug, user);
    case Follow(follower, followed) => FollowCommutes(db, follower, followed);
    case Unfollow(follower, followed) => FollowCommutes(db, follower, followed);
  }

  /** Any sequence of calls gives the same replies, call by call, on the tables and on the abstract store. */
  lemma {:induction false} RunRefines(db: Db, calls: seq<Call>)
    requires Integrity(db)
    ensures Abstract(Run(db, calls)) == PerformAll(Abstract(db), calls)
    ensures Replies(db, calls) == Answers(Abstract(db), calls)
    decreases |calls|
  {
    if calls != [] {
      var m, now := calls[0].mutation, calls[0].now;
      ApplyKeepsIntegrity(m, now, db);
      ApplyCommutes(m, now, db);
      RunRefines(Apply(m, now, db).db, calls[1..]);
    }
  }
}

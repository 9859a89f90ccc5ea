/** Every statement keeps every declared constraint, so every run does. */
module IntegrityProofs {
  import opened Prelude
  import opened Schema
  import opened Mutators

  predicate TagTableOk(tags: map<int, string>, serial: int) {
    && (forall g | g in tags :: 1 <= g <= serial)
    && (forall g, h | g in tags && h in tags :: tags[g] == tags[h] ==> g == h)
  }

  /**
   * The upsert of tag names: old rows stay as they are, only requested names are added, each under an id that was
   * never issued before, and without an error every requested name is there afterwards.
   */
  lemma {:induction false} InsertTagsFacts(tags: map<int, string>, serial: int, names: seq<string>)
    requires TagTableOk(tags, serial) && 0 <= serial <= MAX_INT32
    ensures
      var r := InsertTags(tags, serial, names);
      && TagTableOk(r.tags, r.serial)
      && serial <= r.serial <= MAX_INT32
      && (forall g | g in tags :: g in r.tags && r.tags[g] == tags[g])
      && (forall g | g in r.tags && g !in tags :: g > serial && r.tags[g] in names)
      && (r.error.None? ==> forall n | n in names :: NameTaken(r.tags, n))
      && (r.error.Some? ==> r.error.value == SequenceExhausted || r.error.value == StringTooLong)
    decreases |names|
  {
    if names != [] && serial < MAX_INT32 && !TooLong(names[0]) {
      var id := serial + 1;
      var next := if NameTaken(tags, names[0]) then tags else tags[id := names[0]];
      InsertTagsFacts(next, id, names[1..]);
      var r := InsertTags(next, id, names[1..]);
      assert r == InsertTags(tags, serial, names);
      assert NameTaken(next, names[0]) by {
        assert !NameTaken(tags, names[0]) ==> id in next;
      }
      if r.error.None? {
        forall n | n in names ensures NameTaken(r.tags, n) {
          if n == names[0] {
            var g :| g in next && next[g] == n;
            assert r.tags[g] == n;
          } else {
            assert n in names[1..];
          }
        }
      }
    }
  }

  /** Slugs are unique, so the scalar lookup has no choice. */
  lemma SlugPicksOne(t: Tables, s: Serials, slug: string, a: int)
    requires ArticlesOk(t, s) && a in t.articles && t.articles[a].slug == slug
    ensures ArticleAt(t, slug) == Some(a)
  {
    assert t.articles[ArticleAt(t, slug).value].slug == t.articles[a].slug;
  }

  /** The next value of each sequence is not in use. */
  lemma FreshIds(db: Db)
    requires Integrity(db)
    ensures db.serials.users + 1 !in db.tables.users && db.serials.articles + 1 !in db.tables.articles
    ensures db.serials.tags + 1 !in db.tables.tags && db.serials.comments + 1 !in db.tables.comments
  {
  }

  lemma IntegrityParts(db: Db)
    requires Integrity(db)
    ensures SerialsInRange(db.serials) && UsersOk(db.tables, db.serials) && ArticlesOk(db.tables, db.serials)
    ensures TagsOk(db.tables, db.serials) && TagTableOk(db.tables.tags, db.serials.tags)
    ensures LinksOk(db.tables) && CommentsOk(db.tables, db.serials)
  {
  }

  lemma AddUserKeepsIntegrity(db: Db, username: string, email: string, hash: string)
    requires Integrity(db)
    ensures Integrity(AddUser(db, username, email, hash).db)
  {
    hide UsersOk, ArticlesOk, TagsOk, LinksOk, CommentsOk, UsernameTaken, EmailTaken;
    IntegrityParts(db);
    FreshIds(db);
    var r := AddUser(db, username, email, hash);
    var id, row := db.serials.users + 1, User(username, email, hash, None, None);
    OneMoreUserSerial(db.tables, db.serials);
    if r.reply.Ids? {
      NewUserOk(db.tables, db.serials, row);
      MoreUsersKeepLinks(db.tables, r.db.tables, db.serials, r.db.serials);
    } else if r.db.serials != db.serials {
      MoreUsersKeepLinks(db.tables, r.db.tables, db.serials, r.db.serials);
    }
  }

  lemma OneMoreUserSerial(t: Tables, s: Serials)
    requires UsersOk(t, s)
    ensures UsersOk(t, s.(users := s.users + 1))
  {
  }

  lemma NewUserOk(t: Tables, s: Serials, row: User)
    requires UsersOk(t, s) && 0 <= s.users
    requires !UsernameTaken(t.users, row.username, 0) && !EmailTaken(t.users, row.email, 0)
    ensures UsersOk(t.(users := t.users[s.users + 1 := row]), s.(users := s.users + 1))
  {
    forall u | u in t.users ensures !SameName(t.users[u].username, row.username) && t.users[u].email != row.email {
    }
  }

  lemma MoreUsersKeepLinks(t: Tables, t': Tables, s: Serials, s': Serials)
    requires ArticlesOk(t, s) && TagsOk(t, s) && LinksOk(t) && CommentsOk(t, s)
    requires t' == t.(users := t'.users) && s' == s.(users := s'.users)
    requires forall u | u in t.users :: u in t'.users
    ensures ArticlesOk(t', s') && TagsOk(t', s') && LinksOk(t') && CommentsOk(t', s')
  {
    forall p | p in t.favorites ensures p.0 in t'.users {
      var u := p.0;
      assert u in t.users;
    }
    forall p | p in t.followers ensures p.0 in t'.users && p.1 in t'.users {
      var u, v := p.0, p.1;
      assert u in t.users && v in t.users;
    }
  }

  lemma UpdateUserKeepsIntegrity(db: Db, user: int, p: UserPatch)
    requires Integrity(db)
    ensures Integrity(UpdateUser(db, user, p).db)
  {
  }

  /** The rows that link a new article to its tags are all new. */
  lemma LinksAreFresh(t: Tables, id: int, tags: map<int, string>, names: seq<string>)
    requires LinksOk(t) && id !in t.articles
    ensures TagLinks(id, tags, names) * t.articleTags == {}
  {
    forall p | p in t.articleTags ensures p !in TagLinks(id, tags, names) {
      assert p.0 in t.articles;
    }
  }

  lemma AddArticleKeepsIntegrity(db: Db, m: Mutation, now: int)
    requires Integrity(db) && m.AddNewArticle?
    ensures Integrity(AddArticle(db, m, now).db)
  {
    hide UsersOk, ArticlesOk, TagsOk, LinksOk, CommentsOk, InsertTags, TagLinks, SlugTaken;
    IntegrityParts(db);
    FreshIds(db);
    var t, s := db.tables, db.serials;
    var names, r := m.tagList.GetOr([]), AddArticle(db, m, now);
    InsertTagsFacts(t.tags, s.tags, names);
    hide TagTableOk;
    var ins := InsertTags(t.tags, s.tags, names);
    if r.reply.Ids? {
      var row := Article(m.title, m.slug, m.description, m.body, m.author, now, now);
      NewArticleOk(t, s, row, ins, names, r.db);
    } else if s.articles < MAX_INT32 {
      SerialsMayGrow(t, s, r.db.serials);
    }
  }

  lemma SerialsMayGrow(t: Tables, s: Serials, s': Serials)
    requires UsersOk(t, s) && ArticlesOk(t, s) && TagsOk(t, s) && CommentsOk(t, s)
    requires s.users <= s'.users && s.articles <= s'.articles && s.tags <= s'.tags && s.comments <= s'.comments
    ensures UsersOk(t, s') && ArticlesOk(t, s') && TagsOk(t, s') && CommentsOk(t, s')
  {
  }

  lemma NewArticleOk(t: Tables, s: Serials, row: Article, ins: TagInsert, names: seq<string>, db': Db)
    requires UsersOk(t, s) && ArticlesOk(t, s) && LinksOk(t) && CommentsOk(t, s) && 0 <= s.articles
    requires !SlugTaken(t, row.slug, 0) && row.author in t.users
    requires TagTableOk(ins.tags, ins.serial)
    requires forall g | g in t.tags :: g in ins.tags && ins.tags[g] == t.tags[g]
    requires db'.serials == s.(articles := s.articles + 1, tags := ins.serial)
    requires db'.tables == t.(articles := t.articles[s.articles + 1 := row], tags := ins.tags,
                              articleTags := t.articleTags + TagLinks(s.articles + 1, ins.tags, names))
    ensures
      var t', s' := db'.tables, db'.serials;
      UsersOk(t', s') && ArticlesOk(t', s') && TagsOk(t', s') && LinksOk(t') && CommentsOk(t', s')
  {
    var id, t' := s.articles + 1, db'.tables;
    assert ArticlesOk(t', db'.serials) by {
      forall a | a in t.articles ensures t.articles[a].slug != row.slug {
      }
    }
    forall p | p in t'.articleTags ensures p.0 in t'.articles && p.1 in t'.tags {
      if p in t.articleTags {
        var g := p.1;
        assert g in t.tags;
      } else {
        assert p in TagLinks(id, ins.tags, names);
      }
    }
  }

  lemma UpdateArticleKeepsIntegrity(db: Db, oldSlug: string, author: int, p: ArticlePatch, now: int)
    requires Integrity(db)
    ensures Integrity(UpdateArticle(db, oldSlug, author, p, now).db)
  {
  }

  lemma DeleteArticleKeepsIntegrity(db: Db, slug: string, author: int)
    requires Integrity(db)
    ensures Integrity(DeleteArticle(db, slug, author).db)
  {
  }

  lemma AddCommentKeepsIntegrity(db: Db, slug: string, body: string, user: int, now: int)
    requires Integrity(db)
    ensures Integrity(AddComment(db, slug, body, user, now).db)
  {
    hide UsersOk, ArticlesOk, TagsOk, LinksOk, ArticleAt;
    IntegrityParts(db);
    FreshIds(db);
    var r := AddComment(db, slug, body, user, now);
    SerialsMayGrow(db.tables, db.serials, r.db.serials);
    assert r.db.tables == db.tables.(comments := r.db.tables.comments);
    OnlyCommentsDiffer(db.tables, r.db.tables, r.db.serials);
  }

  lemma OnlyCommentsDiffer(t: Tables, t': Tables, s: Serials)
    requires UsersOk(t, s) && ArticlesOk(t, s) && TagsOk(t, s) && LinksOk(t)
    requires t' == t.(comments := t'.comments)
    ensures UsersOk(t', s) && ArticlesOk(t', s) && TagsOk(t', s) && LinksOk(t')
  {
  }

  lemma RemoveCommentKeepsIntegrity(db: Db, comment: int, slug: string, author: int)
    requires Integrity(db)
    ensures Integrity(RemoveComment(db, comment, slug, author).db)
  {
    hide UsersOk, ArticlesOk, TagsOk, LinksOk, CommentMatches;
    OnlyCommentsDiffer(db.tables, RemoveComment(db, comment, slug, author).db.tables, db.serials);
  }

  lemma FavoriteKeepsIntegrity(db: Db, slug: string, user: int)
    requires Integrity(db)
    ensures Integrity(Favorite(db, slug, user).db) && Integrity(Unfavorite(db, slug, user).db)
  {
  }

  lemma FollowKeepsIntegrity(db: Db, follower: int, followed: int)
    requires Integrity(db)
    ensures Integrity(AddFollower(db, follower, followed).db) && Integrity(RemoveFollower(db, follower, followed).db)
  {
  }

  /** One statement, whatever its arguments and whether or not it fails, keeps every constraint at once. */
  lemma ApplyKeepsIntegrity(m: Mutation, now: int, db: Db)
    requires Integrity(db)
    ensures Integrity(Apply(m, now, db).db)
  {
    hide Integrity, AddUser, UpdateUser, AddArticle, UpdateArticle, DeleteArticle, AddComment, RemoveComment;
    hide Favorite, Unfavorite, AddFollower, RemoveFollower;
    match m
    case AddNewUser(username, email, hash) => AddUserKeepsIntegrity(db, username, email, hash);
    case UpdateUserById(user, p) => UpdateUserKeepsIntegrity(db, user, p);
    case AddNewArticle(_, _, _, _, _, _) => AddArticleKeepsIntegrity(db, m, now);
    case UpdateArticleBySlug(oldSlug, author, p) => UpdateArticleKeepsIntegrity(db, oldSlug, author, p, now);
    case DeleteArticleBySlug(slug, author) => DeleteArticleKeepsIntegrity(db, slug, author);
    case AddCommentToArticle(slug, body, user) => AddCommentKeepsIntegrity(db, slug, body, user, now);
    case DeleteComment(comment, slug, author) => RemoveCommentKeepsIntegrity(db, comment, slug, author);
    case FavoriteArticle(slug, user) => FavoriteKeepsIntegrity(db, slug, user);
    case UnfavoriteArticle(slug, user) => FavoriteKeepsIntegrity(db, slug, user);
    case Follow(follower, followed) => FollowKeepsIntegrity(db, follower, followed);
    case Unfollow(follower, followed) => FollowKeepsIntegrity(db, follower, followed);
  }

  /** Every database that any sequence of calls leads to satisfies every constraint. */
  lemma {:induction false} RunKeepsIntegrity(db: Db, calls: seq<Call>)
    requires Integrity(db)
    ensures Integrity(Run(db, calls))
    decreases |calls|
  {
    hide Integrity, Apply;
    if calls != [] {
      ApplyKeepsIntegrity(calls[0].mutation, calls[0].now, db);
      RunKeepsIntegrity(Apply(calls[0].mutation, calls[0].now, db).db, calls[1..]);
    }
  }

  /** The errors that only a clash with a key that a sequence has issued could raise. */
  predicate SerialClash(r: Reply) {
    && r.Error?
    && r.error.UniqueViolation?
    && match r.error.constraint
       case PkUsers | PkArticles | PkArticleTags | PkComments => true
       case _ => false
  }

  /** No reachable database lets a sequence run into a key in use. */
  lemma SerialKeysNeverClash(m: Mutation, now: int, db: Db)
    requires Integrity(db)
    ensures !SerialClash(Apply(m, now, db).reply)
  {
    hide Integrity, UsersOk, ArticlesOk, TagsOk, TagTableOk, LinksOk, CommentsOk;
    hide InsertTags, TagLinks, SlugTaken, UsernameTaken, EmailTaken, ArticleAt;
    var t, s := db.tables, db.serials;
    IntegrityParts(db);
    FreshIds(db);
    match m
    case AddNewArticle(_, slug, _, _, _, tagList) =>
      var names := tagList.GetOr([]);
      LinksAreFresh(t, s.articles + 1, InsertTags(t.tags, s.tags, names).tags, names);
      InsertTagsFacts(t.tags, s.tags, names);
    case _ =>
  }

  // ---- column widths ----

  predicate TagsFit(tags: map<int, string>) {
    forall g | g in tags :: !TooLong(tags[g])
  }

  /** What the VARCHAR columns hold fits them. */
  predicate ColumnsFit(t: Tables) {
    && (forall u | u in t.users :: !UserTooLong(t.users[u]))
    && (forall a | a in t.articles :: !TooLong(t.articles[a].title) && !TooLong(t.articles[a].slug))
    && TagsFit(t.tags)
    && (forall c | c in t.comments :: |t.comments[c].body| <= MAX_COMMENT)
  }

  lemma {:induction false} InsertedTagsFit(tags: map<int, string>, serial: int, names: seq<string>)
    requires TagsFit(tags)
    ensures TagsFit(InsertTags(tags, serial, names).tags)
    decreases |names|
  {
    if names != [] && serial < MAX_INT32 && !TooLong(names[0]) {
      var id := serial + 1;
      var next := if id in tags || NameTaken(tags, names[0]) then tags else tags[id := names[0]];
      InsertedTagsFit(next, id, names[1..]);
      assert InsertTags(tags, serial, names) == InsertTags(next, id, names[1..]);
    }
  }

  lemma ApplyKeepsColumns(m: Mutation, now: int, db: Db)
    requires ColumnsFit(db.tables)
    ensures ColumnsFit(Apply(m, now, db).db.tables)
  {
    hide InsertTags, TagLinks, SlugTaken, UsernameTaken, EmailTaken, ArticleAt, CommentMatches, TooLong;
    var t := Apply(m, now, db).db.tables;
    if m.AddNewArticle? {
      var names := m.tagList.GetOr([]);
      InsertedTagsFit(db.tables.tags, db.serials.tags, names);
      assert t.tags == db.tables.tags || t.tags == InsertTags(db.tables.tags, db.serials.tags, names).tags;
    } else {
      assert t.tags == db.tables.tags;
    }
    hide TagsFit;
    forall a | a in t.articles ensures !TooLong(t.articles[a].title) && !TooLong(t.articles[a].slug) {
    }
    forall u | u in t.users ensures !UserTooLong(t.users[u]) {
    }
  }

  lemma {:induction false} RunKeepsColumns(db: Db, calls: seq<Call>)
    requires ColumnsFit(db.tables)
    ensures ColumnsFit(Run(db, calls).tables)
    decreases |calls|
  {
    hide ColumnsFit, Apply;
    if calls != [] {
      ApplyKeepsColumns(calls[0].mutation, calls[0].now, db);
      RunKeepsColumns(Apply(calls[0].mutation, calls[0].now, db).db, calls[1..]);
    }
  }
}

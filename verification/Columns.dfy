/**
 * The eleven mutating statements once more, in terms of nothing but the columns of the tables: when each succeeds,
 * with which error it fails, what every column holds afterwards, and what is left alone.
 */
module Columns {
  import opened Prelude
  import opened Text
  import opened Schema
  import opened Mutators
  import opened IntegrityProofs
  import opened AbstractStore
  import opened Refinement

  // ---- accounts ----

  ghost predicate InsertsUser(db: Db, username: string, email: string, hash: string, r: Result) {
    var users, id := db.tables.users, db.serials.users + 1;
    if id > 0x7fff_ffff then r == Result(db, Error(SequenceExhausted))
    else
      && r.db.serials == db.serials.(users := id)
      && if |email| > 255 || |hash| > 255 then
           r.reply == Error(StringTooLong) && r.db.tables == db.tables
         else if exists u :: u in users && FoldCase(users[u].username) == FoldCase(username) then
           r.reply == Error(UniqueViolation(UniqUsername)) && r.db.tables == db.tables
         else if exists u :: u in users && users[u].email == email then
           r.reply == Error(UniqueViolation(UniqEmail)) && r.db.tables == db.tables
         else
           && r.reply == Ids([id]) && id !in users && id in r.db.tables.users
           && r.db.tables == db.tables.(users := r.db.tables.users)
           && r.db.tables.users == users[id := r.db.tables.users[id]]
           && r.db.tables.users[id].username == username
           && r.db.tables.users[id].email == email
           && r.db.tables.users[id].hash == hash
           && r.db.tables.users[id].bio == None
           && r.db.tables.users[id].image == None
  }

  lemma AddUserByColumns(db: Db, username: string, email: string, hash: string)
    requires Integrity(db)
    ensures InsertsUser(db, username, email, hash, AddUser(db, username, email, hash))
  {
    IntegrityParts(db);
    FreshIds(db);
    hide Integrity, ArticlesOk, TagsOk, LinksOk, CommentsOk;
    var users := db.tables.users;
    assert UsernameTaken(users, username, 0) <==>
           exists u :: u in users && FoldCase(users[u].username) == FoldCase(username);
    assert EmailTaken(users, email, 0) <==> exists u :: u in users && users[u].email == email;
    hide UsernameTaken, EmailTaken;
  }

  ghost predicate UpdatesUser(db: Db, user: int, p: UserPatch, r: Result) {
    var users := db.tables.users;
    if user !in users then r == Result(db, UserRows([]))
    else
      var row := users[user];
      var username := if p.username.Some? then p.username.value else row.username;
      var email := if p.email.Some? then p.email.value else row.email;
      var hash := if p.hash.Some? then p.hash.value else row.hash;
      var bio := if p.bio.Some? then p.bio else row.bio;
      var image := if p.image.Some? then p.image else row.image;
      if |email| > 255 || |hash| > 255 || (image.Some? && |image.value| > 255) then
        r == Result(db, Error(StringTooLong))
      else if exists u :: u in users && u != user && FoldCase(users[u].username) == FoldCase(username) then
        r == Result(db, Error(UniqueViolation(UniqUsername)))
      else if exists u :: u in users && u != user && users[u].email == email then
        r == Result(db, Error(UniqueViolation(UniqEmail)))
      else
        && user in r.db.tables.users
        && r.reply == UserRows([(user, r.db.tables.users[user])])
        && r.db.serials == db.serials
        && r.db.tables == db.tables.(users := r.db.tables.users)
        && r.db.tables.users == users[user := r.db.tables.users[user]]
        && r.db.tables.users[user].username == username
        && r.db.tables.users[user].email == email
        && r.db.tables.users[user].hash == hash
        && r.db.tables.users[user].bio == bio
        && r.db.tables.users[user].image == image
  }

  lemma UpdateUserByColumns(db: Db, user: int, p: UserPatch)
    ensures UpdatesUser(db, user, p, UpdateUser(db, user, p))
  {
    if user in db.tables.users {
      var users, row := db.tables.users, PatchUser(db.tables.users[user], p);
      assert UsernameTaken(users, row.username, user) <==>
             exists u :: u in users && u != user && FoldCase(users[u].username) == FoldCase(row.username);
      assert EmailTaken(users, row.email, user) <==> exists u :: u in users && u != user && users[u].email == row.email;
      hide UsernameTaken, EmailTaken;
    }
  }

  // ---- articles ----

  /** Every name fits its column and there are ids for all of them. */
  predicate TagsGoIn(names: seq<string>, serial: int) {
    && (forall k | 0 <= k < |names| :: |names[k]| <= 255)
    && serial + |names| <= 0x7fff_ffff
  }

  /** The first name that does not fit comes before the ids run out. */
  ghost predicate TagTooLong(names: seq<string>, serial: int) {
    exists k | 0 <= k < |names| ::
      |names[k]| > 255 && serial + k < 0x7fff_ffff && forall j | 0 <= j < k :: |names[j]| <= 255
  }

  lemma TagsEndAs(tags: map<int, string>, serial: int, names: seq<string>)
    requires 0 <= serial <= MAX_INT32
    ensures
      InsertTags(tags, serial, names).error
      == if TagsGoIn(names, serial) then None
         else if TagTooLong(names, serial) then Some(StringTooLong) else Some(SequenceExhausted)
    ensures TagsGoIn(names, serial) ==> InsertTags(tags, serial, names).serial == serial + |names|
  {
    hide InsertTags;
    TagIdsAreDrawnInBulk(tags, serial, names);
    var k := FirstTooLong(names);
    hide FirstTooLong;
    if k < |names| {
      assert |names[k]| > 255;
      assert forall j | 0 <= j < k :: |names[j]| <= 255;
      assert TagTooLong(names, serial) <==> serial + k < MAX_INT32;
    } else {
      assert forall j | 0 <= j < |names| :: |names[j]| <= 255;
    }
  }

  ghost predicate Tagged(t: Tables, a: int, name: string) {
    exists g :: g in t.tags && t.tags[g] == name && (a, g) in t.articleTags
  }

  ghost predicate InsertsArticle(db: Db, title: string, slug: string, description: string, body: string, author: int,
                                 tagList: Option<seq<string>>, now: int, r: Result)
  {
    var articles, id := db.tables.articles, db.serials.articles + 1;
    var names := if tagList.Some? then tagList.value else [];
    if id > 0x7fff_ffff then r == Result(db, Error(SequenceExhausted))
    else if |title| > 255 || |slug| > 255 then
      r == Result(db.(serials := db.serials.(articles := id)), Error(StringTooLong))
    else if exists a :: a in articles && articles[a].slug == slug then
      r == Result(db.(serials := db.serials.(articles := id)), Error(UniqueViolation(UniqSlug)))
    else if author !in db.tables.users then
      r == Result(db.(serials := db.serials.(articles := id)), Error(ForeignKeyViolation))
    else if !TagsGoIn(names, db.serials.tags) then
      && r.db.serials == db.serials.(articles := id, tags := r.db.serials.tags)
      && r.reply == Error(if TagTooLong(names, db.serials.tags) then StringTooLong else SequenceExhausted)
      && r.db.tables == db.tables
    else
      var t, t' := db.tables, r.db.tables;
      && r.reply == Ids([id]) && id !in articles && id in t'.articles
      && r.db.serials == db.serials.(articles := id, tags := db.serials.tags + |names|)
      && t'.users == t.users && t'.favorites == t.favorites && t'.followers == t.followers && t'.comments == t.comments
      && t'.articles == articles[id := t'.articles[id]]
      && t'.articles[id].title == title
      && t'.articles[id].slug == slug
      && t'.articles[id].description == description
      && t'.articles[id].body == body
      && t'.articles[id].author == author
      && t'.articles[id].createdAt == now
      && t'.articles[id].updatedAt == now
      && (forall name :: Tagged(t', id, name) <==> name in names)
      && (forall a, g | a != id :: (a, g) in t'.articleTags <==> (a, g) in t.articleTags)
      && (forall g | g in t.tags :: g in t'.tags && t'.tags[g] == t.tags[g])
  }

  /** What the create depends on, apart from the row itself. */
  lemma CreateFacts(db: Db, slug: string, names: seq<string>)
    requires Integrity(db)
    ensures
      var t, id, ins := db.tables, db.serials.articles + 1, InsertTags(db.tables.tags, db.serials.tags, names);
      && id !in t.articles && LinksOk(t)
      && (SlugTaken(t, slug, 0) <==> exists a :: a in t.articles && t.articles[a].slug == slug)
      && TagLinks(id, ins.tags, names) * t.articleTags == {}
      && ins.error == (if TagsGoIn(names, db.serials.tags) then None
                       else if TagTooLong(names, db.serials.tags) then Some(StringTooLong)
                       else Some(SequenceExhausted))
      && (TagsGoIn(names, db.serials.tags) ==> ins.serial == db.serials.tags + |names|)
      && (forall g | g in t.tags :: g in ins.tags && ins.tags[g] == t.tags[g])
      && (ins.error.None? ==> forall n | n in names :: NameTaken(ins.tags, n))
  {
    var t, s := db.tables, db.serials;
    IntegrityParts(db);
    FreshIds(db);
    hide UsersOk, TagsOk, CommentsOk, TagTableOk, InsertTags, TagsGoIn, TagTooLong;
    TagsEndAs(t.tags, s.tags, names);
    InsertTagsFacts(t.tags, s.tags, names);
    LinksAreFresh(t, s.articles + 1, InsertTags(t.tags, s.tags, names).tags, names);
  }

  lemma AddArticleByColumns(db: Db, m: Mutation, now: int)
    requires Integrity(db) && m.AddNewArticle?
    ensures
      InsertsArticle(db, m.title, m.slug, m.description, m.body, m.author, m.tagList, now, AddArticle(db, m, now))
  {
    hide Integrity, LinksOk, SlugTaken, InsertTags, TagLinks, NameTaken, Tagged, TagsGoIn, TagTooLong;
    var t, s := db.tables, db.serials;
    var names, r := if m.tagList.Some? then m.tagList.value else [], AddArticle(db, m, now);
    CreateFacts(db, m.slug, names);
    if r.reply.Ids? {
      NewLinks(t, s.articles + 1, InsertTags(t.tags, s.tags, names), names, r.db.tables);
    }
  }

  lemma NewLinks(t: Tables, id: int, ins: TagInsert, names: seq<string>, t': Tables)
    requires LinksOk(t) && id !in t.articles
    requires t'.tags == ins.tags && t'.articleTags == t.articleTags + TagLinks(id, ins.tags, names)
    requires forall n | n in names :: NameTaken(ins.tags, n)
    ensures forall name :: Tagged(t', id, name) <==> name in names
    ensures forall a, g | a != id :: (a, g) in t'.articleTags <==> (a, g) in t.articleTags
  {
    forall g ensures (id, g) !in t.articleTags {
      var p := (id, g);
      assert p in t.articleTags ==> p.0 in t.articles;
    }
    forall name ensures Tagged(t', id, name) <==> name in names {
      if name in names {
        assert NameTaken(ins.tags, name);
        var g :| g in ins.tags && ins.tags[g] == name;
        assert (id, g) in t'.articleTags;
      }
    }
  }

  ghost predicate UpdatesArticle(db: Db, slug: string, author: int, p: ArticlePatch, now: int, r: Result) {
    var articles := db.tables.articles;
    && ((forall a | a in articles :: articles[a].slug != slug || articles[a].author != author) ==>
          r == Result(db, Ids([])))
    && (forall a | a in articles && articles[a].slug == slug && articles[a].author == author ::
          UpdatesThisArticle(db, a, p, now, r))
  }

  ghost predicate UpdatesThisArticle(db: Db, a: int, p: ArticlePatch, now: int, r: Result)
    requires a in db.tables.articles
  {
    var articles, row := db.tables.articles, db.tables.articles[a];
    var title := if p.title.Some? then p.title.value else row.title;
    var slug := if p.slug.Some? then p.slug.value else row.slug;
    var description := if p.description.Some? then p.description.value else row.description;
    var body := if p.body.Some? then p.body.value else row.body;
    if |title| > 255 || |slug| > 255 then r == Result(db, Error(StringTooLong))
    else if exists b :: b in articles && b != a && articles[b].slug == slug then
      r == Result(db, Error(UniqueViolation(UniqSlug)))
    else
      && r.reply == Ids([a]) && a in r.db.tables.articles
      && r.db.serials == db.serials
      && r.db.tables == db.tables.(articles := r.db.tables.articles)
      && r.db.tables.articles == articles[a := r.db.tables.articles[a]]
      && r.db.tables.articles[a].title == title
      && r.db.tables.articles[a].slug == slug
      && r.db.tables.articles[a].description == description
      && r.db.tables.articles[a].body == body
      && r.db.tables.articles[a].author == row.author
      && r.db.tables.articles[a].createdAt == row.createdAt
      && r.db.tables.articles[a].updatedAt == now
  }

  lemma UpdateArticleByColumns(db: Db, slug: string, author: int, p: ArticlePatch, now: int)
    requires Integrity(db)
    ensures UpdatesArticle(db, slug, author, p, now, UpdateArticle(db, slug, author, p, now))
  {
    hide UpdatesThisArticle;
    IntegrityParts(db);
    var articles, r := db.tables.articles, UpdateArticle(db, slug, author, p, now);
    forall a | a in articles && articles[a].slug == slug && articles[a].author == author
      ensures UpdatesThisArticle(db, a, p, now, r)
    {
      SlugPicksOne(db.tables, db.serials, slug, a);
      PatchByColumns(db, slug, a, p, now);
    }
    hide Integrity, UsersOk, ArticlesOk, TagsOk, TagTableOk, LinksOk, CommentsOk, SlugTaken;
  }

  lemma PatchByColumns(db: Db, slug: string, a: int, p: ArticlePatch, now: int)
    requires ArticleAt(db.tables, slug) == Some(a)
    ensures UpdatesThisArticle(db, a, p, now, UpdateArticle(db, slug, db.tables.articles[a].author, p, now))
  {
    hide ArticleAt;
    var articles, row := db.tables.articles, PatchArticle(db.tables.articles[a], p, now);
    assert SlugTaken(db.tables, row.slug, a) <==> exists b :: b in articles && b != a && articles[b].slug == row.slug;
    hide SlugTaken;
  }

  /** The one at the slug by the author goes, with its links and comments, unless a favorite names it. */
  ghost predicate DeletesArticle(db: Db, slug: string, author: int, r: Result) {
    var t := db.tables;
    && ((forall a | a in t.articles :: t.articles[a].slug != slug || t.articles[a].author != author) ==>
          r == Result(db, Void))
    && (forall a | a in t.articles && t.articles[a].slug == slug && t.articles[a].author == author ::
          if exists u :: (u, a) in t.favorites then r == Result(db, Error(ForeignKeyViolation))
          else
            var t' := r.db.tables;
            && r.reply == Void && r.db.serials == db.serials
            && t'.users == t.users && t'.tags == t.tags && t'.favorites == t.favorites && t'.followers == t.followers
            && t'.articles == t.articles - {a}
            && (forall b, g :: (b, g) in t'.articleTags <==> (b, g) in t.articleTags && b != a)
            && (forall c :: c in t'.comments <==> c in t.comments && t.comments[c].article != a)
            && (forall c | c in t'.comments :: t'.comments[c] == t.comments[c]))
  }

  lemma FavoredIsNamed(favorites: set<(int, int)>, a: int)
    ensures (exists u :: (u, a) in favorites) <==> exists p | p in favorites :: p.1 in {a}
  {
    if u :| (u, a) in favorites {
      var p := (u, a);
      assert p in favorites && p.1 in {a};
    }
    if p :| p in favorites && p.1 in {a} {
      var u := p.0;
      assert p == (u, a);
    }
  }

  lemma DeleteArticleByColumns(db: Db, slug: string, author: int)
    requires Integrity(db)
    ensures DeletesArticle(db, slug, author, DeleteArticle(db, slug, author))
  {
    OwnedIsTheOneAt(db, slug, author);
    IntegrityParts(db);
    hide UsersOk, TagsOk, LinksOk, CommentsOk;
    var t := db.tables;
    var gone, r := OwnedAt(t, slug, author), DeleteArticle(db, slug, author);
    forall a | a in t.articles && t.articles[a].slug == slug && t.articles[a].author == author
      ensures gone == {a}
      ensures (exists u :: (u, a) in t.favorites) <==> exists p | p in t.favorites :: p.1 in gone
    {
      SlugPicksOne(t, db.serials, slug, a);
      FavoredIsNamed(t.favorites, a);
    }
    NothingGone(t);
    hide Integrity, UsersOk, ArticlesOk, TagsOk, TagTableOk, LinksOk, CommentsOk, ArticleAt;
    if forall a | a in t.articles :: t.articles[a].slug != slug || t.articles[a].author != author {
      assert gone == {};
    }
  }

  // ---- comments ----

  ghost predicate InsertsComment(db: Db, slug: string, body: string, user: int, now: int, r: Result) {
    var t, id := db.tables, db.serials.comments + 1;
    if id > 0x7fff_ffff then r == Result(db, Error(SequenceExhausted))
    else
      && r.db.serials == db.serials.(comments := id)
      && if |body| > 16384 then r.reply == Error(StringTooLong) && r.db.tables == t
         else if !exists a :: a in t.articles && t.articles[a].slug == slug then
           r.reply == Error(NotNullViolation) && r.db.tables == t
         else if user !in t.users then r.reply == Error(ForeignKeyViolation) && r.db.tables == t
         else
           && r.reply == Ids([id]) && id !in t.comments && id in r.db.tables.comments
           && r.db.tables == t.(comments := r.db.tables.comments)
           && r.db.tables.comments == t.comments[id := r.db.tables.comments[id]]
           && r.db.tables.comments[id].author == user
           && r.db.tables.comments[id].body == body
           && r.db.tables.comments[id].createdAt == now
           && r.db.tables.comments[id].updatedAt == now
           && r.db.tables.comments[id].article in t.articles
           && t.articles[r.db.tables.comments[id].article].slug == slug
  }

  lemma AddCommentByColumns(db: Db, slug: string, body: string, user: int, now: int)
    requires Integrity(db)
    ensures InsertsComment(db, slug, body, user, now, AddComment(db, slug, body, user, now))
  {
    FreshIds(db);
    var t := db.tables;
    assert ArticleAt(t, slug).Some? <==> exists a :: a in t.articles && t.articles[a].slug == slug;
    hide Integrity, ArticleAt;
  }

  ghost predicate DeletesComment(db: Db, comment: int, slug: string, author: int, r: Result) {
    var t := db.tables;
    && r.reply == Void && r.db.serials == db.serials
    && r.db.tables == t.(comments := r.db.tables.comments)
    && if && comment in t.comments && t.comments[comment].author == author
          && t.comments[comment].article in t.articles && t.articles[t.comments[comment].article].slug == slug
       then r.db.tables.comments == t.comments - {comment}
       else r.db.tables.comments == t.comments
  }

  lemma CommentFilterByColumns(db: Db, comment: int, slug: string, author: int)
    requires Integrity(db)
    ensures
      var t := db.tables;
      CommentMatches(t, comment, slug, author) <==>
      && comment in t.comments && t.comments[comment].author == author
      && t.comments[comment].article in t.articles && t.articles[t.comments[comment].article].slug == slug
  {
    IntegrityParts(db);
    var t := db.tables;
    hide Integrity, ArticleAt;
    if comment in t.comments && t.comments[comment].article in t.articles
       && t.articles[t.comments[comment].article].slug == slug {
      SlugPicksOne(t, db.serials, slug, t.comments[comment].article);
    }
  }

  lemma RemoveCommentByColumns(db: Db, comment: int, slug: string, author: int)
    requires Integrity(db)
    ensures DeletesComment(db, comment, slug, author, RemoveComment(db, comment, slug, author))
  {
    CommentFilterByColumns(db, comment, slug, author);
    hide Integrity, CommentMatches;
  }

  // ---- favorites and followers ----

  ghost predicate InsertsFavorite(db: Db, slug: string, user: int, r: Result) {
    var t := db.tables;
    && ((forall a | a in t.articles :: t.articles[a].slug != slug) ==> r == Result(db, Error(NotNullViolation)))
    && (forall a | a in t.articles && t.articles[a].slug == slug ::
          if (user, a) in t.favorites then r == Result(db, Error(UniqueViolation(PkFavorites)))
          else if user !in t.users then r == Result(db, Error(ForeignKeyViolation))
          else r == Result(db.(tables := t.(favorites := t.favorites + {(user, a)})), Void))
  }

  ghost predicate DeletesFavorite(db: Db, slug: string, user: int, r: Result) {
    var t := db.tables;
    && ((forall a | a in t.articles :: t.articles[a].slug != slug) ==> r == Result(db, Void))
    && (forall a | a in t.articles && t.articles[a].slug == slug ::
          r == Result(db.(tables := t.(favorites := t.favorites - {(user, a)})), Void))
  }

  lemma FavoritesByColumns(db: Db, slug: string, user: int)
    requires Integrity(db)
    ensures InsertsFavorite(db, slug, user, Favorite(db, slug, user))
    ensures DeletesFavorite(db, slug, user, Unfavorite(db, slug, user))
  {
    IntegrityParts(db);
    hide Integrity, UsersOk, TagsOk, LinksOk, CommentsOk;
    var t := db.tables;
    forall a | a in t.articles && t.articles[a].slug == slug ensures ArticleAt(t, slug) == Some(a) {
      SlugPicksOne(t, db.serials, slug, a);
    }
  }

  ghost predicate InsertsFollower(db: Db, follower: int, followed: int, r: Result) {
    var t := db.tables;
    if (follower, followed) in t.followers then r == Result(db, Error(UniqueViolation(PkFollowers)))
    else if follower !in t.users || followed !in t.users then r == Result(db, Error(ForeignKeyViolation))
    else r == Result(db.(tables := t.(followers := t.followers + {(follower, followed)})), Void)
  }

  ghost predicate DeletesFollower(db: Db, follower: int, followed: int, r: Result) {
    r == Result(db.(tables := db.tables.(followers := db.tables.followers - {(follower, followed)})), Void)
  }

  /** Each of the eleven statements by columns. */
  ghost predicate DoesByColumns(m: Mutation, now: int, db: Db, r: Result) {
    match m
    case AddNewUser(username, email, hash) => InsertsUser(db, username, email, hash, r)
    case UpdateUserById(user, p) => UpdatesUser(db, user, p, r)
    case AddNewArticle(title, slug, description, body, author, tagList) =>
      InsertsArticle(db, title, slug, description, body, author, tagList, now, r)
    case UpdateArticleBySlug(slug, author, p) => UpdatesArticle(db, slug, author, p, now, r)
    case DeleteArticleBySlug(slug, author) => DeletesArticle(db, slug, author, r)
    case AddCommentToArticle(slug, body, user) => InsertsComment(db, slug, body, user, now, r)
    case DeleteComment(comment, slug, author) => DeletesComment(db, comment, slug, author, r)
    case FavoriteArticle(slug, user) => InsertsFavorite(db, slug, user, r)
    case UnfavoriteArticle(slug, user) => DeletesFavorite(db, slug, user, r)
    case Follow(follower, followed) => InsertsFollower(db, follower, followed, r)
    case Unfollow(follower, followed) => DeletesFollower(db, follower, followed, r)
  }

  lemma ApplyByColumns(m: Mutation, now: int, db: Db)
    requires Integrity(db)
    ensures DoesByColumns(m, now, db, Apply(m, now, db))
  {
    hide Integrity, AddUser, UpdateUser, AddArticle, UpdateArticle, DeleteArticle, AddComment, RemoveComment;
    hide Favorite, Unfavorite, InsertsUser, UpdatesUser, InsertsArticle, UpdatesArticle, DeletesArticle;
    hide InsertsComment, DeletesComment, InsertsFavorite, DeletesFavorite;
    match m
    case AddNewUser(username, email, hash) => AddUserByColumns(db, username, email, hash);
    case UpdateUserById(user, p) => UpdateUserByColumns(db, user, p);
    case AddNewArticle(_, _, _, _, _, _) => AddArticleByColumns(db, m, now);
    case UpdateArticleBySlug(slug, author, p) => UpdateArticleByColumns(db, slug, author, p, now);
    case DeleteArticleBySlug(slug, author) => DeleteArticleByColumns(db, slug, author);
    case AddCommentToArticle(slug, body, user) => AddCommentByColumns(db, slug, body, user, now);
    case DeleteComment(comment, slug, author) => RemoveCommentByColumns(db, comment, slug, author);
    case FavoriteArticle(slug, user) => FavoritesByColumns(db, slug, user);
    case UnfavoriteArticle(slug, user) => FavoritesByColumns(db, slug, user);
    case Follow(_, _) =>
    case Unfollow(_, _) =>
  }
}

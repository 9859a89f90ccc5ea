/** The database as an object: seven tables and four sequences that the SQL functions update statement by statement. */
module Database {
  import opened Prelude
  import opened Schema
  import opened Mutators
  import opened Rows
  import opened Queries
  import opened IntegrityProofs
  import opened Columns

  /** Visits the rows of a table in whatever order they come. */
  method ScanTable<T(==)>(table: set<T>) returns (scan: seq<T>)
    ensures Enumerates(scan, table)
  {
    scan := [];
    var rest := table;
    while rest != {}
      invariant rest <= table && Enumerates(scan, table - rest)
      decreases |rest|
    {
      var x :| x in rest;
      scan, rest := scan + [x], rest - {x};
    }
  }

  class Database {
    var users: map<int, User>
    var articles: map<int, Article>
    var tags: map<int, string>
    var articleTags: set<(int, int)>
    var favorites: set<(int, int)>
    var followers: set<(int, int)>
    var comments: map<int, Comment>
    var userSerial: int
    var articleSerial: int
    var tagSerial: int
    var commentSerial: int

    function Snapshot(): Db
      reads this
    {
      Db(Tables(users, articles, tags, articleTags, favorites, followers, comments),
         Serials(userSerial, articleSerial, tagSerial, commentSerial))
    }

    ghost predicate Valid()
      reads this
    {
      Integrity(Snapshot())
    }

    constructor ()
      ensures Valid() && Snapshot() == EMPTY_DB
    {
      users, articles, tags, comments := map[], map[], map[], map[];
      articleTags, favorites, followers := {}, {}, {};
      userSerial, articleSerial, tagSerial, commentSerial := 0, 0, 0, 0;
    }

    /** SELECT article_id FROM articles WHERE slug = _slug, as a scalar. */
    method FindArticle(slug: string) returns (r: Option<int>)
      requires Valid()
      ensures r == ArticleAt(Snapshot().tables, slug)
    {
      var scan := ScanTable(articles.Keys);
      for i := 0 to |scan|
        invariant forall j | 0 <= j < i :: articles[scan[j]].slug != slug
      {
        assert scan[i] in articles.Keys;
        if articles[scan[i]].slug == slug {
          SlugPicksOne(Snapshot().tables, Snapshot().serials, slug, scan[i]);
          return Some(scan[i]);
        }
      }
      r := None;
    }

    method AddNewUser(username: string, email: string, hash: string) returns (reply: Reply)
      modifies this
      ensures Result(Snapshot(), reply) == AddUser(old(Snapshot()), username, email, hash)
      ensures old(Valid()) ==> InsertsUser(old(Snapshot()), username, email, hash, Result(Snapshot(), reply))
    {
      hide InsertsUser, Integrity;
      if Valid() {
        AddUserByColumns(Snapshot(), username, email, hash);
      }
      if userSerial >= MAX_INT32 {
        return Error(SequenceExhausted);
      }
      userSerial := userSerial + 1;
      if TooLong(email) || TooLong(hash) {
        return Error(StringTooLong);
      }
      if userSerial in users {
        return Error(UniqueViolation(PkUsers));
      }
      if exists u | u in users :: u != 0 && SameName(users[u].username, username) {
        return Error(UniqueViolation(UniqUsername));
      }
      if exists u | u in users :: u != 0 && users[u].email == email {
        return Error(UniqueViolation(UniqEmail));
      }
      users := users[userSerial := User(username, email, hash, None, None)];
      return Ids([userSerial]);
    }

    method UpdateUserById(user: int, p: UserPatch) returns (reply: Reply)
      modifies this
      ensures Result(Snapshot(), reply) == UpdateUser(old(Snapshot()), user, p)
      ensures UpdatesUser(old(Snapshot()), user, p, Result(Snapshot(), reply))
    {
      hide UpdatesUser;
      UpdateUserByColumns(Snapshot(), user, p);
      hide UserTooLong;
      if user !in users {
        return UserRows([]);
      }
      var was := users[user];
      var row := was.(
        username := p.username.GetOr(was.username), email := p.email.GetOr(was.email), hash := p.hash.GetOr(was.hash),
        bio := if p.bio.Some? then p.bio else was.bio, image := if p.image.Some? then p.image else was.image);
      if UserTooLong(row) {
        return Error(StringTooLong);
      }
      if exists u | u in users :: u != user && SameName(users[u].username, row.username) {
        return Error(UniqueViolation(UniqUsername));
      }
      if exists u | u in users :: u != user && users[u].email == row.email {
        return Error(UniqueViolation(UniqEmail));
      }
      users := users[user := row];
      return UserRows([(user, row)]);
    }

    /** INSERT INTO tags(name) SELECT unnest(names) ON CONFLICT DO NOTHING. */
    method UpsertTags(names: seq<string>) returns (error: Option<DbError>)
      modifies this`tags, this`tagSerial
      ensures TagInsert(tags, tagSerial, error) == InsertTags(old(tags), old(tagSerial), names)
    {
      var i := 0;
      while i < |names|
        invariant i <= |names|
        invariant InsertTags(tags, tagSerial, names[i..]) == InsertTags(old(tags), old(tagSerial), names)
      {
        if tagSerial >= MAX_INT32 {
          return Some(SequenceExhausted);
        }
        tagSerial := tagSerial + 1;
        if TooLong(names[i]) {
          return Some(StringTooLong);
        }
        if tagSerial !in tags && !exists g | g in tags :: tags[g] == names[i] {
          tags := tags[tagSerial := names[i]];
        }
        i := i + 1;
      }
      return None;
    }

    /** Three statements in one call: when a later one fails, the rows of the earlier ones are taken back. */
    method AddNewArticle(title: string, slug: string, description: string, body: string, author: int,
                         tagList: Option<seq<string>>, now: int) returns (reply: Reply)
      modifies this
      ensures
        var m := Mutation.AddNewArticle(title, slug, description, body, author, tagList);
        Result(Snapshot(), reply) == AddArticle(old(Snapshot()), m, now)
      ensures old(Valid()) ==> InsertsArticle(old(Snapshot()), title, slug, description, body, author, tagList, now,
                                             Result(Snapshot(), reply))
    {
      hide InsertsArticle, Integrity;
      if Valid() {
        AddArticleByColumns(
          Snapshot(), Mutation.AddNewArticle(title, slug, description, body, author, tagList), now);
      }
      hide InsertTags, TooLong;
      var savedArticles, savedTags := articles, tags;
      if articleSerial >= MAX_INT32 {
        return Error(SequenceExhausted);
      }
      var id := articleSerial + 1;
      var names := match tagList case Some(list) => list case None => [];
      articleSerial := id;
      if TooLong(title) || TooLong(slug) {
        return Error(StringTooLong);
      }
      if id in articles {
        return Error(UniqueViolation(PkArticles));
      }
      if exists a | a in articles :: a != 0 && articles[a].slug == slug {
        return Error(UniqueViolation(UniqSlug));
      }
      if author !in users {
        return Error(ForeignKeyViolation);
      }
      articles := articles[id := Article(title, slug, description, body, author, now, now)];
      var error := UpsertTags(names);
      if error.Some? {
        articles, tags := savedArticles, savedTags;
        return Error(error.value);
      }
      var links := set g | g in tags && tags[g] in names :: (id, g);
      if links * articleTags != {} {
        articles, tags := savedArticles, savedTags;
        return Error(UniqueViolation(PkArticleTags));
      }
      articleTags := articleTags + links;
      return Ids([id]);
    }

    method UpdateArticleBySlug(oldSlug: string, author: int, p: ArticlePatch, now: int) returns (reply: Reply)
      requires Valid()
      modifies this
      ensures Result(Snapshot(), reply) == UpdateArticle(old(Snapshot()), oldSlug, author, p, now)
      ensures UpdatesArticle(old(Snapshot()), oldSlug, author, p, now, Result(Snapshot(), reply))
    {
      hide UpdatesArticle;
      UpdateArticleByColumns(Snapshot(), oldSlug, author, p, now);
      var at := FindArticle(oldSlug);
      if at.None? || articles[at.value].author != author {
        return Ids([]);
      }
      var id, was := at.value, articles[at.value];
      var row := was.(
        title := p.title.GetOr(was.title), slug := p.slug.GetOr(was.slug),
        description := p.description.GetOr(was.description), body := p.body.GetOr(was.body), updatedAt := now);
      if TooLong(row.title) || TooLong(row.slug) {
        return Error(StringTooLong);
      }
      if exists a | a in articles :: a != id && articles[a].slug == row.slug {
        return Error(UniqueViolation(UniqSlug));
      }
      articles := articles[id := row];
      return Ids([id]);
    }

    /** The row goes first, then the cascades run, then the key without a cascade is checked. */
    method DeleteArticleBySlug(slug: string, author: int) returns (reply: Reply)
      modifies this
      ensures Result(Snapshot(), reply) == DeleteArticle(old(Snapshot()), slug, author)
      ensures old(Valid()) ==> DeletesArticle(old(Snapshot()), slug, author, Result(Snapshot(), reply))
    {
      hide DeletesArticle, Integrity;
      if Valid() {
        DeleteArticleByColumns(Snapshot(), slug, author);
      }
      var gone := set a | a in articles && articles[a].slug == slug && articles[a].author == author;
      var savedArticles, savedLinks, savedComments := articles, articleTags, comments;
      articles := articles - gone;
      articleTags := set p | p in articleTags && p.0 !in gone;
      comments := map c | c in comments && comments[c].article !in gone :: comments[c];
      if exists p | p in favorites :: p.1 in gone {
        articles, articleTags, comments := savedArticles, savedLinks, savedComments;
        return Error(ForeignKeyViolation);
      }
      return Void;
    }

    method AddCommentToArticle(slug: string, body: string, user: int, now: int) returns (reply: Reply)
      requires Valid()
      modifies this
      ensures Result(Snapshot(), reply) == AddComment(old(Snapshot()), slug, body, user, now)
      ensures InsertsComment(old(Snapshot()), slug, body, user, now, Result(Snapshot(), reply))
    {
      hide InsertsComment;
      AddCommentByColumns(Snapshot(), slug, body, user, now);
      var at := FindArticle(slug);
      if commentSerial >= MAX_INT32 {
        return Error(SequenceExhausted);
      }
      commentSerial := commentSerial + 1;
      if |body| > MAX_COMMENT {
        return Error(StringTooLong);
      }
      if at.None? {
        return Error(NotNullViolation);
      }
      if commentSerial in comments {
        return Error(UniqueViolation(PkComments));
      }
      if user !in users {
        return Error(ForeignKeyViolation);
      }
      comments := comments[commentSerial := Comment(user, at.value, body, now, now)];
      return Ids([commentSerial]);
    }

    method IsCommentExist(comment: int, slug: string, author: int) returns (r: bool)
      requires Valid()
      ensures r == CommentMatches(Snapshot().tables, comment, slug, author)
    {
      var at := FindArticle(slug);
      return comment in comments && comments[comment].author == author && at == Some(comments[comment].article);
    }

    method DeleteComment(comment: int, slug: string, author: int) returns (reply: Reply)
      requires Valid()
      modifies this
      ensures Result(Snapshot(), reply) == RemoveComment(old(Snapshot()), comment, slug, author)
      ensures DeletesComment(old(Snapshot()), comment, slug, author, Result(Snapshot(), reply))
    {
      hide DeletesComment;
      RemoveCommentByColumns(Snapshot(), comment, slug, author);
      var found := IsCommentExist(comment, slug, author);
      if found {
        comments := comments - {comment};
      }
      return Void;
    }

    method FavoriteArticle(slug: string, user: int) returns (reply: Reply)
      requires Valid()
      modifies this
      ensures Result(Snapshot(), reply) == Favorite(old(Snapshot()), slug, user)
      ensures InsertsFavorite(old(Snapshot()), slug, user, Result(Snapshot(), reply))
    {
      hide InsertsFavorite, DeletesFavorite;
      FavoritesByColumns(Snapshot(), slug, user);
      var at := FindArticle(slug);
      if at.None? {
        return Error(NotNullViolation);
      }
      if (user, at.value) in favorites {
        return Error(UniqueViolation(PkFavorites));
      }
      if user !in users {
        return Error(ForeignKeyViolation);
      }
      favorites := favorites + {(user, at.value)};
      return Void;
    }

    method UnfavoriteArticle(slug: string, user: int) returns (reply: Reply)
      requires Valid()
      modifies this
      ensures Result(Snapshot(), reply) == Unfavorite(old(Snapshot()), slug, user)
      ensures DeletesFavorite(old(Snapshot()), slug, user, Result(Snapshot(), reply))
    {
      hide InsertsFavorite, DeletesFavorite;
      FavoritesByColumns(Snapshot(), slug, user);
      var at := FindArticle(slug);
      if at.Some? {
        favorites := favorites - {(user, at.value)};
      }
      return Void;
    }

    method Follow(follower: int, followed: int) returns (reply: Reply)
      modifies this
      ensures Result(Snapshot(), reply) == AddFollower(old(Snapshot()), follower, followed)
      ensures InsertsFollower(old(Snapshot()), follower, followed, Result(Snapshot(), reply))
    {
      if (follower, followed) in followers {
        return Error(UniqueViolation(PkFollowers));
      }
      if follower !in users || followed !in users {
        return Error(ForeignKeyViolation);
      }
      followers := followers + {(follower, followed)};
      return Void;
    }

    method Unfollow(follower: int, followed: int) returns (reply: Reply)
      modifies this
      ensures Result(Snapshot(), reply) == RemoveFollower(old(Snapshot()), follower, followed)
      ensures DeletesFollower(old(Snapshot()), follower, followed, Result(Snapshot(), reply))
    {
      followers := followers - {(follower, followed)};
      return Void;
    }

    /** One call of a mutating function through the cluster: its effect, its reply, and the constraints it keeps. */
    method Execute(m: Mutation, now: int) returns (reply: Reply)
      requires Valid()
      modifies this
      ensures Result(Snapshot(), reply) == Apply(m, now, old(Snapshot()))
      ensures Valid()
      ensures DoesByColumns(m, now, old(Snapshot()), Result(Snapshot(), reply))
    {
      hide DoesByColumns, InsertsUser, UpdatesUser, InsertsArticle, UpdatesArticle, DeletesArticle;
      hide InsertsComment, DeletesComment, InsertsFavorite, DeletesFavorite;
      ApplyKeepsIntegrity(m, now, Snapshot());
      ApplyByColumns(m, now, Snapshot());
      match m
      case AddNewUser(username, email, hash) => reply := AddNewUser(username, email, hash);
      case UpdateUserById(user, p) => reply := UpdateUserById(user, p);
      case AddNewArticle(title, slug, description, body, author, tagList) =>
        reply := AddNewArticle(title, slug, description, body, author, tagList, now);
      case UpdateArticleBySlug(oldSlug, author, p) => reply := UpdateArticleBySlug(oldSlug, author, p, now);
      case DeleteArticleBySlug(slug, author) => reply := DeleteArticleBySlug(slug, author);
      case AddCommentToArticle(slug, body, user) => reply := AddCommentToArticle(slug, body, user, now);
      case DeleteComment(comment, slug, author) => reply := DeleteComment(comment, slug, author);
      case FavoriteArticle(slug, user) => reply := FavoriteArticle(slug, user);
      case UnfavoriteArticle(slug, user) => reply := UnfavoriteArticle(slug, user);
      case Follow(follower, followed) => reply := Follow(follower, followed);
      case Unfollow(follower, followed) => reply := Unfollow(follower, followed);
    }

    /** The order in which a query happens to visit the tables. */
    method Plan() returns (sc: Scan)
      ensures ScanOf(sc, Snapshot().tables)
    {
      var u := ScanTable(users.Keys);
      var a := ScanTable(articles.Keys);
      var g := ScanTable(tags.Keys);
      var l := ScanTable(articleTags);
      var c := ScanTable(comments.Keys);
      sc := Scan(u, a, g, l, c);
    }
  }
}

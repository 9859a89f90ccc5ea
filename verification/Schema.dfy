/** The seven tables, their SERIAL counters and their declared constraints. */
module Schema {
  import opened Prelude
  import opened Text

  /** SERIAL is an INT column over a sequence: ids run from 1 to the largest 32-bit signed integer. */
  const MAX_INT32 := 0x7fff_ffff
  const MAX_VARCHAR := 255
  const MAX_COMMENT := 16384

  datatype User = User(username: string, email: string, hash: string, bio: Option<string>, image: Option<string>)

  datatype Article = Article(
    title: string, slug: string, description: string, body: string, author: int, createdAt: int, updatedAt: int)

  datatype Comment = Comment(author: int, article: int, body: string, createdAt: int, updatedAt: int)

  /** A table with a SERIAL key maps keys to rows; a table that is all key is a set of rows. */
  datatype Tables = Tables(
    users: map<int, User>,
    articles: map<int, Article>,
    tags: map<int, string>,
    articleTags: set<(int, int)>,  // (article, tag)
    favorites: set<(int, int)>,    // (user, article)
    followers: set<(int, int)>,    // (follower, followed)
    comments: map<int, Comment>)

  /** The last value each sequence has issued; 0 when it has issued none. */
  datatype Serials = Serials(users: int, articles: int, tags: int, comments: int)

  datatype Db = Db(tables: Tables, serials: Serials)

  const EMPTY_TABLES := Tables(map[], map[], map[], {}, {}, {}, map[])
  const EMPTY_DB := Db(EMPTY_TABLES, Serials(0, 0, 0, 0))

  datatype Unique =
    | PkUsers | UniqUsername | UniqEmail
    | PkArticles | UniqSlug
    | PkArticleTags | PkFavorites | PkFollowers | PkComments

  datatype DbError =
    | UniqueViolation(constraint: Unique)
    | ForeignKeyViolation
    | NotNullViolation
    | StringTooLong
    | SequenceExhausted

  predicate SameName(a: string, b: string) {
    FoldCase(a) == FoldCase(b)
  }

  predicate SerialsInRange(s: Serials) {
    && 0 <= s.users <= MAX_INT32
    && 0 <= s.articles <= MAX_INT32
    && 0 <= s.tags <= MAX_INT32
    && 0 <= s.comments <= MAX_INT32
  }

  predicate UsersOk(t: Tables, s: Serials) {
    && (forall u | u in t.users :: 1 <= u <= s.users)
    && (forall u, v | u in t.users && v in t.users :: SameName(t.users[u].username, t.users[v].username) ==> u == v)
    && (forall u, v | u in t.users && v in t.users :: t.users[u].email == t.users[v].email ==> u == v)
  }

  predicate ArticlesOk(t: Tables, s: Serials) {
    && (forall a | a in t.articles :: 1 <= a <= s.articles)
    && (forall a, b | a in t.articles && b in t.articles :: t.articles[a].slug == t.articles[b].slug ==> a == b)
    && (forall a | a in t.articles :: t.articles[a].author in t.users)
  }

  predicate TagsOk(t: Tables, s: Serials) {
    && (forall g | g in t.tags :: 1 <= g <= s.tags)
    && (forall g, h | g in t.tags && h in t.tags :: t.tags[g] == t.tags[h] ==> g == h)
  }

  predicate LinksOk(t: Tables) {
    && (forall p | p in t.articleTags :: p.0 in t.articles && p.1 in t.tags)
    && (forall p | p in t.favorites :: p.0 in t.users && p.1 in t.articles)
    && (forall p | p in t.followers :: p.0 in t.users && p.1 in t.users)
  }

  predicate CommentsOk(t: Tables, s: Serials) {
    forall c | c in t.comments ::
      1 <= c <= s.comments && t.comments[c].author in t.users && t.comments[c].article in t.articles
  }

  /** Every declared primary-key, unique and foreign-key constraint, and every key below its sequence. */
  predicate Integrity(db: Db) {
    && SerialsInRange(db.serials)
    && UsersOk(db.tables, db.serials)
    && ArticlesOk(db.tables, db.serials)
    && TagsOk(db.tables, db.serials)
    && LinksOk(db.tables)
    && CommentsOk(db.tables, db.serials)
  }
}

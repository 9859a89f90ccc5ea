/** What the handlers check before they touch the database, and what a request that passes can still run into. */
module Requests {
  import opened Prelude
  import opened Text
  import opened Schema
  import opened Mutators
  import opened Queries
  import opened IntegrityProofs
  import opened Views
  import opened Handlers
  import opened Interleaving
  import opened Outcomes
  import opened Solo
  import Email

  datatype Problem = Required | Blank | BadSize | BadFormat | NothingToDo

  datatype Checked<+T> = Valid(value: T) | Invalid(field: string, problem: Problem)

  // ---- CheckSize: both bounds are exclusive and lengths count code points ----

  predicate SizeOk(s: string, min: int, max: int) {
    min < |s| < max
  }

  function CheckSize(s: string, name: string, min: int, max: int): Checked<string> {
    if SizeOk(s, min, max) then Valid(s) else Invalid(name, BadSize)
  }

  /** A field that has to be there. */
  function CheckField(data: Option<string>, name: string, min: int, max: int): Checked<string> {
    match data
    case None => Invalid(name, Required)
    case Some(s) => CheckSize(s, name, min, max)
  }

  // ---- ValidateEmail ----

  /** The pattern is matched in one pass. */
  method ValidateEmail(data: Option<string>, name: string) returns (r: Checked<string>)
    ensures
      r == match data
           case None => Invalid(name, Required)
           case Some(s) => if s == [] then Invalid(name, Blank)
                           else if Email.Matches(Email.PATTERN, s) then Valid(s)
                           else Invalid(name, BadFormat)
  {
    if data.None? {
      return Invalid(name, Required);
    }
    var email := data.value;
    if email == [] {
      return Invalid(name, Blank);
    }
    var state := Email.Begin;
    for i := 0 to |email|
      invariant Email.Accepts(Email.Begin, email) == Email.Accepts(state, email[i..])
    {
      assert email[i..][1..] == email[i + 1..];
      state := Email.Step(state, email[i]);
    }
    Email.PatternAutomatonAndDescriptionAgree(email);
    return if state == Email.Label then Valid(email) else Invalid(name, BadFormat);
  }

  // ---- tags ----

  /** to_lower without a locale changes the letters A to Z. */
  function LowerChar(c: char): char {
    if 'A' <= c <= 'Z' then ((c as int) + 32) as char else c
  }

  function ToLower(s: string): (r: string)
    ensures |r| == |s|
    ensures forall i | 0 <= i < |s| :: r[i] == LowerChar(s[i])
  {
    if s == [] then [] else [LowerChar(s[0])] + ToLower(s[1..])
  }

  /** What lowering means, letter by letter: no capital is left, the n-th becomes the n-th small letter, others stay. */
  lemma LoweredLetters(s: string, i: nat, n: nat)
    requires i < |s| && n < 26
    ensures !('A' <= ToLower(s)[i] <= 'Z')
    ensures !('A' <= s[i] <= 'Z') ==> ToLower(s)[i] == s[i]
    ensures s[i] as int == 'A' as int + n ==> ToLower(s)[i] as int == 'a' as int + n
  {
  }

  predicate TagOk(tag: string) {
    SizeOk(tag, 2, 256)
  }

  function LowerTags(tags: seq<string>): seq<string> {
    seq(|tags|, i requires 0 <= i < |tags| => ToLower(tags[i]))
  }

  /** In place, tag by tag; the first tag of a wrong size stops the pass, with the tags before it already changed. */
  method NormaliseTags(tags: array<string>) returns (ok: bool)
    modifies tags
    ensures ok <==> forall i | 0 <= i < tags.Length :: TagOk(old(tags[i]))
    ensures ok ==> tags[..] == LowerTags(old(tags[..]))
    ensures !ok ==> exists n | 0 <= n < tags.Length ::
                      && !TagOk(old(tags[n])) && (forall i | 0 <= i < n :: TagOk(old(tags[i])))
                      && tags[..n] == LowerTags(old(tags[..n])) && tags[n..] == old(tags[n..])
  {
    for i := 0 to tags.Length
      invariant forall j | 0 <= j < i :: TagOk(old(tags[j])) && tags[j] == ToLower(old(tags[j]))
      invariant forall j | i <= j < tags.Length :: tags[j] == old(tags[j])
    {
      if !TagOk(tags[i]) {
        assert tags[..i] == LowerTags(old(tags[..i])) && tags[i..] == old(tags[i..]);
        return false;
      }
      tags[i] := ToLower(tags[i]);
    }
    return true;
  }

  // ---- articles ----

  datatype ArticleForm = ArticleForm(
    title: Option<string>, description: Option<string>, body: Option<string>, tagList: Option<seq<string>>)

  datatype NewArticle = NewArticle(title: string, description: string, body: string, tagList: Option<seq<string>>)

  predicate TagsOkToSend(tagList: Option<seq<string>>) {
    tagList.Some? ==> forall i | 0 <= i < |tagList.value| :: TagOk(tagList.value[i])
  }

  function LowerTagList(tagList: Option<seq<string>>): Option<seq<string>> {
    match tagList
    case None => None
    case Some(tags) => Some(LowerTags(tags))
  }

  /** The form is accepted exactly when every field is there with an admissible length, and then keeps its text. */
  predicate FormOk(f: ArticleForm) {
    && f.title.Some? && SizeOk(f.title.value, 3, 256)
    && f.description.Some? && SizeOk(f.description.value, 5, 8192)
    && f.body.Some? && SizeOk(f.body.value, 5, 65535)
    && TagsOkToSend(f.tagList)
  }

  /** Copies an optional list of tags into an array of its own, as parsing the JSON does. */
  method ParseTags(tagList: Option<seq<string>>) returns (r: Checked<Option<seq<string>>>)
    ensures r == if TagsOkToSend(tagList) then Valid(LowerTagList(tagList)) else Invalid("tagList", BadSize)
  {
    if tagList.None? {
      return Valid(None);
    }
    var tags := new string[|tagList.value|](i requires 0 <= i < |tagList.value| => tagList.value[i]);
    assert tags[..] == tagList.value;
    ghost var before := tags[..];
    var ok := NormaliseTags(tags);
    if !ok {
      return Invalid("tagList", BadSize);
    }
    return Valid(Some(tags[..]));
  }

  /** The lengths of a new article, in numbers. */
  lemma NewArticleLengths(f: ArticleForm)
    ensures
      FormOk(f) <==>
      && f.title.Some? && 4 <= |f.title.value| <= 255
      && f.description.Some? && 6 <= |f.description.value| <= 8191
      && f.body.Some? && 6 <= |f.body.value| <= 65534
      && (f.tagList.Some? ==> forall i | 0 <= i < |f.tagList.value| :: 3 <= |f.tagList.value[i]| <= 255)
  {
  }

  method ParseNewArticle(f: ArticleForm) returns (r: Checked<NewArticle>)
    ensures r.Valid? <==> FormOk(f)
    ensures
      r.Valid? ==> r.value == NewArticle(f.title.value, f.description.value, f.body.value, LowerTagList(f.tagList))
    ensures !FormOk(f) ==>
      r == if f.title.None? then Invalid("title", Required)
           else if !SizeOk(f.title.value, 3, 256) then Invalid("title", BadSize)
           else if f.description.None? then Invalid("description", Required)
           else if !SizeOk(f.description.value, 5, 8192) then Invalid("description", BadSize)
           else if f.body.None? then Invalid("body", Required)
           else if !SizeOk(f.body.value, 5, 65535) then Invalid("body", BadSize)
           else Invalid("tagList", BadSize)
  {
    var title := CheckField(f.title, "title", 3, 256);
    if title.Invalid? { return Invalid(title.field, title.problem); }
    var description := CheckField(f.description, "description", 5, 8192);
    if description.Invalid? { return Invalid(description.field, description.problem); }
    var body := CheckField(f.body, "body", 5, 65535);
    if body.Invalid? { return Invalid(body.field, body.problem); }
    var tags := ParseTags(f.tagList);
    if tags.Invalid? { return Invalid(tags.field, tags.problem); }
    return Valid(NewArticle(title.value, description.value, body.value, tags.value));
  }

  predicate PresentOk(s: Option<string>, min: int, max: int) {
    s.Some? ==> SizeOk(s.value, min, max)
  }

  /** The bound of the title differs from the one for a new article by one. */
  predicate PatchFormOk(f: ArticleForm) {
    && PresentOk(f.title, 3, 255) && PresentOk(f.description, 5, 8192) && PresentOk(f.body, 5, 65535)
    && TagsOkToSend(f.tagList)
    && (f.title.Some? || f.description.Some? || f.body.Some? || f.tagList.Some?)
  }

  lemma ArticlePatchLengths(f: ArticleForm)
    ensures
      PatchFormOk(f) <==>
      && (f.title.Some? ==> 4 <= |f.title.value| <= 254)
      && (f.description.Some? ==> 6 <= |f.description.value| <= 8191)
      && (f.body.Some? ==> 6 <= |f.body.value| <= 65534)
      && (f.tagList.Some? ==> forall i | 0 <= i < |f.tagList.value| :: 3 <= |f.tagList.value[i]| <= 255)
      && !(f.title.None? && f.description.None? && f.body.None? && f.tagList.None?)
  {
  }

  method ParseArticlePatch(user: int, slug: string, f: ArticleForm) returns (r: Checked<Request>)
    ensures r.Valid? <==> PatchFormOk(f)
    ensures r.Valid? ==> r.value == EditArticle(user, slug, f.title, f.description, f.body)
    ensures !PatchFormOk(f) ==>
      r == if !PresentOk(f.title, 3, 255) then Invalid("title", BadSize)
           else if !PresentOk(f.description, 5, 8192) then Invalid("description", BadSize)
           else if !PresentOk(f.body, 5, 65535) then Invalid("body", BadSize)
           else if !TagsOkToSend(f.tagList) then Invalid("tagList", BadSize)
           else Invalid("article", NothingToDo)
  {
    if f.title.Some? {
      var title := CheckSize(f.title.value, "title", 3, 255);
      if title.Invalid? { return Invalid(title.field, title.problem); }
    }
    if f.description.Some? {
      var description := CheckSize(f.description.value, "description", 5, 8192);
      if description.Invalid? { return Invalid(description.field, description.problem); }
    }
    if f.body.Some? {
      var body := CheckSize(f.body.value, "body", 5, 65535);
      if body.Invalid? { return Invalid(body.field, body.problem); }
    }
    var tags := ParseTags(f.tagList);
    if tags.Invalid? { return Invalid(tags.field, tags.problem); }
    if f.title.None? && f.description.None? && f.body.None? && f.tagList.None? {
      return Invalid("article", NothingToDo);
    }
    return Valid(EditArticle(user, slug, f.title, f.description, f.body));
  }

  /** What may be created may also be sent as an update, unless the title has the greatest length a new one may have. */
  lemma CreatableIsUpdatableIff(f: ArticleForm)
    requires FormOk(f)
    ensures PatchFormOk(f) <==> |f.title.value| != 255
    ensures PatchFormOk(f.(title := None))
  {
  }

  /** An update with nothing but tags is accepted, and all it changes is the date: the tags are not sent. */
  lemma TagsOfAnUpdateAreDropped(db: Db, user: int, slug: string, tags: seq<string>, a: int, now: int)
    requires Integrity(db) && ColumnsFit(db.tables)
    requires PatchFormOk(ArticleForm(None, None, None, Some(tags)))
    requires ArticleAt(db.tables, slug) == Some(a) && db.tables.articles[a].author == user
    ensures
      var row := db.tables.articles[a].(updatedAt := now);
      Apply(EditStatement(EditArticle(user, slug, None, None, None)), now, db)
      == Result(db.(tables := db.tables.(articles := db.tables.articles[a := row])), Ids([a]))
  {
    IntegrityParts(db);
    hide Integrity, UsersOk, TagsOk, LinksOk, CommentsOk, ArticleAt, TooLong, UserTooLong, TagsFit, PatchFormOk;
    assert !SlugTaken(db.tables, slug, a);
  }

  /** An accepted form creates an article tagged with its tags in lower case, each once and in order. */
  lemma FormTagsAreShown(events: seq<Event>, i: nat, now: int, f: ArticleForm, user: int)
    requires FormOk(f) && i < |Reached(events).handlers| && Reached(events).handlers[i].Wrote?
    requires Reached(events).handlers[i].request
             == CreateArticle(user, f.title.value, f.description.value, f.body.value, LowerTagList(f.tagList))
    ensures
      var w := Reached(events);
      var response := Advance(w.handlers[i], w.db, now).handler.response;
      Advance(w.handlers[i], w.db, now).handler.Finished? &&
      (response.ArticleBody? ==>
         response.article.tagList == SortedNames(set t | t in f.tagList.GetOr([]) :: ToLower(t)))
  {
    hide Advance;
    var r := Reached(events).handlers[i].request;
    ReadBackFailsIffDeleted(events, i, now);
    CreateShowsTheCallersArticle(events, i, now);
    LowerNames(f.tagList.GetOr([]));
    assert Requested(r) == set t | t in f.tagList.GetOr([]) :: ToLower(t);
  }

  lemma LowerNames(tags: seq<string>)
    ensures (set n | n in LowerTags(tags)) == set t | t in tags :: ToLower(t)
  {
    forall t | t in tags ensures ToLower(t) in LowerTags(tags) {
      var i :| 0 <= i < |tags| && tags[i] == t;
      assert LowerTags(tags)[i] == ToLower(t);
    }
    forall n | n in LowerTags(tags) ensures n in set t | t in tags :: ToLower(t) {
      var i :| 0 <= i < |tags| && LowerTags(tags)[i] == n;
      assert tags[i] in tags;
    }
  }

  // ---- what a checked request can still run into ----

  lemma {:induction false} LowerTagsFit(tags: map<int, string>, serial: int, names: seq<string>)
    requires forall i | 0 <= i < |names| :: !TooLong(names[i])
    ensures InsertTags(tags, serial, names).error != Some(StringTooLong)
    decreases |names|
  {
    if names != [] && serial < MAX_INT32 {
      var id := serial + 1;
      var next := if id in tags || NameTaken(tags, names[0]) then tags else tags[id := names[0]];
      LowerTagsFit(next, id, names[1..]);
    }
  }

  /** Of an accepted form only the slug can be too long for its column. */
  lemma AcceptedFormFitsButForSlug(db: Db, f: ArticleForm, user: int, now: int)
    requires Integrity(db) && FormOk(f) && db.serials.articles < MAX_INT32
    ensures
      var m := CreateStatement(
        CreateArticle(user, f.title.value, f.description.value, f.body.value, LowerTagList(f.tagList)));
      AddArticle(db, m, now).reply == Error(StringTooLong) <==> TooLong(Slugify(f.title.value))
  {
    hide Integrity, InsertTags, TagLinks, SlugTaken;
    var names := LowerTagList(f.tagList).GetOr([]);
    assert forall i | 0 <= i < |names| :: !TooLong(names[i]);
    LowerTagsFit(db.tables.tags, db.serials.tags, names);
  }

  // ---- comments ----

  method ParseComment(user: int, slug: string, data: Option<string>) returns (r: Checked<Request>)
    ensures
      r == match data
           case None => Invalid("body", Required)
           case Some(body) => if 5 <= |body| <= 16383 then Valid(PostComment(user, slug, body))
                              else Invalid("body", BadSize)
  {
    var body := CheckField(data, "body", 4, 16384);
    if body.Invalid? { return Invalid(body.field, body.problem); }
    return Valid(PostComment(user, slug, body.value));
  }

  /** An accepted comment always fits its column. */
  lemma AcceptedCommentFits(db: Db, user: int, slug: string, body: string, now: int)
    requires Integrity(db) && 5 <= |body| <= 16383
    ensures AddComment(db, slug, body, user, now).reply != Error(StringTooLong)
  {
    hide Integrity, ArticleAt;
  }

  // ---- accounts ----

  datatype AccountForm = AccountForm(
    email: Option<string>, username: Option<string>, password: Option<string>, bio: Option<string>,
    image: Option<string>)

  ghost predicate IsEmail(s: string) {
    s != [] && Email.Matches(Email.PATTERN, s)
  }

  ghost predicate AccountFormOk(f: AccountForm) {
    && (f.email.Some? ==> IsEmail(f.email.value))
    && PresentOk(f.username, 2, 20) && PresentOk(f.password, 5, 100) && PresentOk(f.bio, 3, 65535)
    && PresentOk(f.image, 3, 255)
    && f != AccountForm(None, None, None, None, None)
  }

  lemma AccountLengths(f: AccountForm)
    ensures
      AccountFormOk(f) <==>
      && (f.email.Some? ==> f.email.value != [] && Email.Matches(Email.PATTERN, f.email.value))
      && (f.username.Some? ==> 3 <= |f.username.value| <= 19)
      && (f.password.Some? ==> 6 <= |f.password.value| <= 99)
      && (f.bio.Some? ==> 4 <= |f.bio.value| <= 65534)
      && (f.image.Some? ==> 4 <= |f.image.value| <= 254)
      && !(f.email.None? && f.username.None? && f.password.None? && f.bio.None? && f.image.None?)
  {
  }

  /** The fields are filled in and checked in turn. */
  method ParseAccountPatch(data: AccountForm) returns (r: Checked<AccountForm>)
    ensures r.Valid? <==> AccountFormOk(data)
    ensures r.Valid? ==> r.value == data
    ensures !AccountFormOk(data) ==>
      r == if data.email.Some? && !IsEmail(data.email.value)
           then Invalid("email", if data.email.value == [] then Blank else BadFormat)
           else if !PresentOk(data.username, 2, 20) then Invalid("username", BadSize)
           else if !PresentOk(data.password, 5, 100) then Invalid("password", BadSize)
           else if !PresentOk(data.bio, 3, 65535) then Invalid("bio", BadSize)
           else if !PresentOk(data.image, 3, 255) then Invalid("image", BadSize)
           else Invalid("user", NothingToDo)
  {
    var f := AccountForm(None, None, None, None, None);
    f := f.(email := data.email);
    if f.email.Some? {
      var email := ValidateEmail(data.email, "email");
      if email.Invalid? { return Invalid(email.field, email.problem); }
    }
    f := f.(username := data.username);
    if f.username.Some? {
      var username := CheckSize(f.username.value, "username", 2, 20);
      if username.Invalid? { return Invalid(username.field, username.problem); }
    }
    f := f.(password := data.password);
    if f.password.Some? {
      var password := CheckSize(f.password.value, "password", 5, 100);
      if password.Invalid? { return Invalid(password.field, password.problem); }
    }
    f := f.(bio := data.bio);
    if f.bio.Some? {
      var bio := CheckSize(f.bio.value, "bio", 3, 65535);
      if bio.Invalid? { return Invalid(bio.field, bio.problem); }
    }
    f := f.(image := data.image);
    if f.image.Some? {
      var image := CheckSize(f.image.value, "image", 3, 255);
      if image.Invalid? { return Invalid(image.field, image.problem); }
    }
    if f.email.None? && f.username.None? && f.password.None? && f.bio.None? && f.image.None? {
      return Invalid("user", NothingToDo);
    }
    return Valid(f);
  }

  /** The hash of the password is what the library made of it; it fits its column. */
  function AccountPatch(f: AccountForm, hash: Option<string>): UserPatch {
    UserPatch(f.username, f.email, hash, f.bio, f.image)
  }

  /** Of an accepted account form only the e-mail, whose length is not checked, can be too long for its column. */
  lemma AcceptedAccountFitsButForEmail(db: Db, user: int, f: AccountForm, hash: Option<string>)
    requires ColumnsFit(db.tables) && AccountFormOk(f) && user in db.tables.users
    requires hash.Some? ==> !TooLong(hash.value)
    ensures UpdateUser(db, user, AccountPatch(f, hash)).reply == Error(StringTooLong)
            <==> f.email.Some? && TooLong(f.email.value)
  {
    hide IsEmail, UsernameTaken, EmailTaken;
    assert !UserTooLong(db.tables.users[user]);
  }

  lemma KeptNameIsFree(db: Db, user: int)
    requires Integrity(db) && user in db.tables.users
    ensures !UsernameTaken(db.tables.users, db.tables.users[user].username, user)
    ensures !EmailTaken(db.tables.users, db.tables.users[user].email, user)
  {
  }

  lemma TakenByColumns(users: map<int, User>, name: string, email: string, user: int)
    ensures UsernameTaken(users, name, user)
            <==> exists u :: u in users && u != user && FoldCase(users[u].username) == FoldCase(name)
    ensures EmailTaken(users, email, user) <==> exists u :: u in users && u != user && users[u].email == email
    ensures TooLong(email) <==> |email| > 255
  {
  }

  /**
   * An accepted account update ends in an error that nobody catches exactly when its e-mail is too long for the
   * column, or another account has the name, or another account has the e-mail; otherwise it answers with the account
   * as it then is.
   */
  lemma AccountUpdateCrashesIff(db: Db, user: int, f: AccountForm, hash: Option<string>, now: int)
    requires Integrity(db) && ColumnsFit(db.tables) && AccountFormOk(f) && user in db.tables.users
    requires hash.Some? ==> !TooLong(hash.value)
    ensures
      var users, t := db.tables.users, Complete(Start(EditUser(user, AccountPatch(f, hash))), db, now);
      && t.handler.Finished?
      && (t.handler.response.Crashed? <==>
            || (f.email.Some? && |f.email.value| > 255)
            || (f.username.Some? && exists u :: u in users && u != user
                                                && FoldCase(users[u].username) == FoldCase(f.username.value))
            || (f.email.Some? && exists u :: u in users && u != user && users[u].email == f.email.value))
      && (t.handler.response.Crashed? ==> t.db == db)
      && (!t.handler.response.Crashed? ==>
            user in t.db.tables.users && t.handler.response == UserBody(AccountOf(t.db.tables.users[user])))
  {
    hide Complete, Integrity, ColumnsFit, AccountFormOk, UsernameTaken, EmailTaken, TooLong, UserTooLong, Advance;
    var r, p := EditUser(user, AccountPatch(f, hash)), AccountPatch(f, hash);
    AcceptedAccountFitsButForEmail(db, user, f, hash);
    KeptNameIsFree(db, user);
    TakenByColumns(db.tables.users, if f.username.Some? then f.username.value else "",
                   if f.email.Some? then f.email.value else "", user);
    WriteEnds(Start(r), db, now);
  }

  function Repeat(c: char, n: nat): (s: string)
    ensures |s| == n && forall i | 0 <= i < n :: s[i] == c
  {
    seq(n, i => c)
  }

  /** There are e-mail addresses that pass the check and do not fit the column. */
  lemma ValidEmailsMayNotFit(n: nat)
    requires n > 0
    ensures IsEmail(Repeat('a', n) + "@b.c")
    ensures n > MAX_VARCHAR ==> TooLong(Repeat('a', n) + "@b.c")
  {
    var s := Repeat('a', n) + "@b.c";
    assert s[..n] == Repeat('a', n) && s[n + 1..] == "b.c";
    var labels := ["b", "c"];
    assert Email.Dotted(labels[1..]) == "." + "c" + Email.Dotted([]);
    assert "b.c" == Email.JoinWithDots(labels);
    assert Email.AllLabels(labels);
    assert Email.IsLocalPart(s[..n]);
    assert s[n] == '@' && Email.IsDomain(s[n + 1..]);
    Email.PatternAutomatonAndDescriptionAgree(s);
  }

  // ---- the authorization header ----

  /** The id claim of a token that decodes and verifies. */
  const VerifiedId: string -> Option<int>

  datatype Auth = Anonymous | TokenNotFound | InvalidToken | Authenticated(id: int)

  function Find(s: string, c: char): (r: Option<nat>)
    ensures r.Some? ==> r.value < |s| && s[r.value] == c && forall i | 0 <= i < r.value :: s[i] != c
    ensures r.None? ==> c !in s
  {
    if s == [] then None
    else if s[0] == c then Some(0)
    else match Find(s[1..], c) case None => None case Some(i) => Some(i + 1)
  }

  function CheckAuth(header: string, optional: bool): Auth {
    if header == [] then (if optional then Anonymous else TokenNotFound)
    else
      match Find(header, ' ')
      case None => TokenNotFound
      case Some(at) =>
        if header[..at] != "Token" then TokenNotFound
        else
          match VerifiedId(header[at + 1..])
          case None => InvalidToken
          case Some(id) => Authenticated(NarrowToInt32(id))
  }

  /**
   * A header authenticates exactly when it is the word Token, one space and a token that verifies; a header that is
   * there and does not is refused even where authentication is optional.
   */
  lemma AuthenticatesIff(header: string, optional: bool, id: int)
    ensures CheckAuth(header, optional) == Authenticated(id)
            <==> exists token :: header == "Token " + token && VerifiedId(token).Some?
                                 && NarrowToInt32(VerifiedId(token).value) == id
    ensures CheckAuth(header, optional) == Anonymous <==> header == [] && optional
    ensures CheckAuth(header, optional) == InvalidToken
            <==> exists token :: header == "Token " + token && VerifiedId(token).None?
  {
    forall token | header == "Token " + token
      ensures Find(header, ' ') == Some(5) && header[..5] == "Token" && header[6..] == token
    {
      assert header[5] == ' ' && header[..5] == "Token";
    }
    var at := Find(header, ' ');
    if at.Some? && header[..at.value] == "Token" {
      assert header == "Token " + header[6..];
    }
  }

  /** A token made for an id lets its bearer in as that very account, in every later world. */
  lemma IssuedTokensAuthenticate(events: seq<Event>, later: seq<Event>, id: int, token: string, optional: bool)
    requires id in Reached(events).tokens && VerifiedId(token) == Some(id)
    ensures CheckAuth("Token " + token, optional) == Authenticated(id)
    ensures id in RunWorld(Reached(events), later).db.tables.users
  {
    TokensStayGood(events, later, id);
    AuthenticatesIff("Token " + token, optional, id);
  }
}

/** When overlapping requests answer and end as they would one after the other, and when they do not. */
module Serialisability {
  import opened Prelude
  import opened Schema
  import opened Mutators
  import opened Queries
  import opened IntegrityProofs
  import opened AbstractStore
  import opened Refinement
  import opened Listings
  import opened Handlers
  import opened Interleaving
  import opened Outcomes
  import opened Solo

  // ---- a request whose window holds no write of another ----

  predicate Writes(w: World, e: Event) {
    match e
    case Arrive(_) => false
    case Step(i, _) => i < |w.handlers| && CanAdvance(w.handlers[i]) && NextWrite(w.handlers[i]).Some?
  }

  /** The only writes among the events are those of handler i; reads of others are no matter. */
  ghost predicate Undisturbed(w: World, events: seq<Event>, i: nat)
    decreases |events|
  {
    events == [] || (
      && (Writes(w, events[0]) ==> events[0].i == i)
      && Undisturbed(Next(w, events[0]), events[1..], i))
  }

  /** The clock reading of the one write of handler i, if it writes. */
  ghost function WriteTime(w: World, events: seq<Event>, i: nat): Option<int>
    decreases |events|
  {
    if events == [] then None
    else if Writes(w, events[0]) && events[0].i == i then Some(events[0].now)
    else WriteTime(Next(w, events[0]), events[1..], i)
  }

  predicate DoneWriting(h: Handler) {
    h.Wrote? || h.Finished?
  }

  lemma ReadsIgnoreTheClock(h: Handler, db: Db, now: int, other: int)
    requires !CanAdvance(h) || NextWrite(h).None?
    ensures Advance(h, db, now) == Advance(h, db, other) && Advance(h, db, now).db == db
  {
    hide Apply, AfterRead, SomeScan;
  }

  lemma AfterTheWrite(h: Handler, db: Db, now: int)
    ensures CanAdvance(h) && NextWrite(h).Some? ==> !DoneWriting(h) && DoneWriting(Advance(h, db, now).handler)
    ensures DoneWriting(h) ==> DoneWriting(Advance(h, db, now).handler)
    ensures Advance(h, db, now).handler.request == h.request
  {
    hide Apply, SomeScan;
    hide GetArticle, GetComment, GetUserByEmail, GetUserByUsername, GetArticleIdBySlug, CommentMatches;
  }

  lemma {:induction false} DoneIgnoresTheClock(h: Handler, db: Db, now: int, other: int)
    requires DoneWriting(h)
    ensures Complete(h, db, now) == Complete(h, db, other)
    decreases StepsLeft(h)
  {
    hide Advance;
    if CanAdvance(h) {
      var next := Advance(h, db, now);
      AfterTheWrite(h, db, now);
      ReadsIgnoreTheClock(h, db, now, other);
      CompleteUnfolds(h, db, now);
      CompleteUnfolds(h, db, other);
      AdvanceComesCloser(h, db, now);
      DoneIgnoresTheClock(next.handler, next.db, now, other);
    }
  }

  /** What handler i has left to do, done alone, comes out the same before and after each event of its window. */
  lemma {:induction false} WindowRunsAlone(w: World, events: seq<Event>, i: nat, now: int)
    requires i < |w.handlers| && Undisturbed(w, events, i)
    requires DoneWriting(w.handlers[i]) || WriteTime(w, events, i) == None || WriteTime(w, events, i) == Some(now)
    ensures
      var end := RunWorld(w, events);
      && i < |end.handlers| && end.handlers[i].request == w.handlers[i].request
      && Complete(end.handlers[i], end.db, now) == Complete(w.handlers[i], w.db, now)
    decreases |events|
  {
    hide Advance, Complete, NextWrite, CanAdvance, DoneWriting;
    if events != [] {
      var next := Next(w, events[0]);
      if Writes(w, events[0]) {
        WritersAreNotDone(w, events[0]);
      }
      OneEventRunsAlone(w, events[0], i, now);
      WindowRunsAlone(next, events[1..], i, now);
    }
  }

  lemma WritersAreNotDone(w: World, e: Event)
    requires Writes(w, e)
    ensures !DoneWriting(w.handlers[e.i])
  {
  }

  lemma OneEventRunsAlone(w: World, e: Event, i: nat, now: int)
    requires i < |w.handlers| && (Writes(w, e) ==> e.i == i && e.now == now)
    ensures
      var next := Next(w, e);
      && i < |next.handlers| && next.handlers[i].request == w.handlers[i].request
      && Complete(next.handlers[i], next.db, now) == Complete(w.handlers[i], w.db, now)
      && (DoneWriting(w.handlers[i]) || Writes(w, e) ==> DoneWriting(next.handlers[i]))
  {
    hide Advance, Complete, NextWrite, CanAdvance;
    if e.Step? && e.i < |w.handlers| {
      var h := w.handlers[e.i];
      AfterTheWrite(h, w.db, e.now);
      if !Writes(w, e) {
        ReadsIgnoreTheClock(h, w.db, e.now, now);
      }
      if e.i == i {
        if CanAdvance(h) {
          CompleteUnfolds(h, w.db, now);
        } else {
          assert Advance(h, w.db, e.now) == Turn(h, w.db) by {
            NothingToAdvance(h, w.db, e.now);
          }
        }
      }
    }
  }

  lemma NothingToAdvance(h: Handler, db: Db, now: int)
    requires !CanAdvance(h)
    ensures Advance(h, db, now) == Turn(h, db)
  {
  }

  /**
   * A request that starts and finishes among any events, of which none but its own writes, answers and leaves the
   * store as the one operation it stands for, carried out at the time of its write.
   */
  lemma UndisturbedIsAtomic(w: World, events: seq<Event>, i: nat)
    requires WorldOk(w) && i < |w.handlers| && w.handlers[i].Start? && Undisturbed(w, events, i)
    requires i < |RunWorld(w, events).handlers| && RunWorld(w, events).handlers[i].Finished?
    ensures HasAuthors(Abstract(w.db))
    ensures
      var end, r := RunWorld(w, events), w.handlers[i].request;
      var served := Serve(Abstract(w.db), r, WriteTime(w, events, i).GetOr(0));
      end.handlers[i] == Finished(r, served.response) && Abstract(end.db) == served.store
  {
    hide Serve, Abstract, HasAuthors, Undisturbed, WriteTime, RunWorld, Integrity, Complete;
    var end, now := RunWorld(w, events), WriteTime(w, events, i).GetOr(0);
    assert Integrity(w.db) && CallerOk(w.db, w.handlers[i].request) by {
      HandlerCallerOk(w.db, w.handlers[i]);
    }
    WindowRunsAlone(w, events, i, now);
    FinishedIsComplete(end.handlers[i].request, end.handlers[i].response, end.db, now);
    EveryRequestIsAtomic(w.db, w.handlers[i].request, now);
  }

  // ---- two deletes whose lookups both come first ----

  datatype Outcome = Outcome(first: Handler, second: Handler, store: Store)

  /** Both requests execute their first statement, then both their second. */
  ghost function Overlapping(db: Db, r: Request, q: Request, now: int): Outcome {
    var a := Advance(Start(r), db, now);
    var b := Advance(Start(q), a.db, now);
    var c := Advance(a.handler, b.db, now);
    var d := Advance(b.handler, c.db, now);
    Outcome(c.handler, d.handler, Abstract(d.db))
  }

  /** One request, then the other. */
  ghost function InTurn(db: Db, r: Request, q: Request, now: int): Outcome {
    var a := Complete(Start(r), db, now);
    var b := Complete(Start(q), a.db, now);
    Outcome(a.handler, b.handler, Abstract(b.db))
  }

  function Exchanged(o: Outcome): Outcome {
    Outcome(o.second, o.first, o.store)
  }

  /** The overlapping requests come out as in one of the two orders. */
  ghost predicate IsSerial(db: Db, r: Request, q: Request, now: int) {
    var o := Overlapping(db, r, q, now);
    o == InTurn(db, r, q, now) || o == Exchanged(InTurn(db, q, r, now))
  }

  function Reported(reply: Reply): Response {
    if reply.Error? then Crashed(reply.error) else Empty
  }

  lemma DeleteStep(db: Db, r: Request, ids: seq<int>, now: int)
    requires Integrity(db) && r.RemoveArticle?
    ensures
      var t, done := Advance(Found(r, ids), db, now), Withdraw(Abstract(db), r.slug, r.user);
      t.handler == Finished(r, Reported(done.reply)) && Abstract(t.db) == done.store && Integrity(t.db)
  {
    hide Integrity, Abstract, Advance, Apply, Withdraw;
    var m := DeleteArticleBySlug(r.slug, r.user);
    ApplyCommutes(m, now, db);
    ApplyKeepsIntegrity(m, now, db);
    Writing(Found(r, ids), db, now);
  }

  lemma OverlappingOutcome(db: Db, u: int, v: int, slug: string, now: int)
    requires Integrity(db)
    ensures
      var s, r, q := Abstract(db), RemoveArticle(u, slug), RemoveArticle(v, slug);
      Overlapping(db, r, q, now)
      == if PostAt(s, slug).None? then Outcome(Finished(r, NotFound), Finished(q, NotFound), s)
         else
           var one := Withdraw(s, slug, u);
           var two := Withdraw(one.store, slug, v);
           Outcome(Finished(r, Reported(one.reply)), Finished(q, Reported(two.reply)), two.store)
  {
    hide Integrity, Abstract, Advance, Withdraw, PostAt, ArticleAt, Reported;
    var s, r, q := Abstract(db), RemoveArticle(u, slug), RemoveArticle(v, slug);
    LookupsAgree(db, slug);
    LookupFinds(db, r, now);
    LookupFinds(db, q, now);
    if PostAt(s, slug).None? {
      NothingToAdvance(Finished(r, NotFound), db, now);
      NothingToAdvance(Finished(q, NotFound), db, now);
    } else {
      var ids := [PostAt(s, slug).value];
      DeleteStep(db, r, ids, now);
      DeleteStep(Advance(Found(r, ids), db, now).db, q, ids, now);
    }
  }

  lemma InTurnOutcome(db: Db, u: int, v: int, slug: string, now: int)
    requires Integrity(db) && u in db.tables.users && v in db.tables.users
    ensures
      var s, r, q := Abstract(db), RemoveArticle(u, slug), RemoveArticle(v, slug);
      var one := ServeRemoval(s, r);
      var two := ServeRemoval(one.store, q);
      InTurn(db, r, q, now) == Outcome(Finished(r, one.response), Finished(q, two.response), two.store)
  {
    hide Integrity, Abstract, Complete, ServeRemoval, HasAuthors, OneSlugEach;
    var r, q := RemoveArticle(u, slug), RemoveArticle(v, slug);
    StoreFacts(db);
    EveryRequestIsAtomic(db, r, now);
    var mid := Complete(Start(r), db, now).db;
    StoreFacts(mid);
    RemovalKeepsUsers(Abstract(db), r);
    EveryRequestIsAtomic(mid, q, now);
  }

  lemma RemovalKeepsUsers(s: Store, r: Request)
    requires r.RemoveArticle?
    ensures ServeRemoval(s, r).store.users == s.users
  {
  }

  /** The caller is the author of the post at the slug, and nobody favors it. */
  ghost predicate Removable(s: Store, slug: string, u: int) {
    var at := PostAt(s, slug);
    at.Some? && s.posts[at.value].row.author == u && s.posts[at.value].fans == {}
  }

  lemma WithdrawOnce(s: Store, slug: string, u: int)
    requires OneSlugEach(s)
    ensures Removable(s, slug, u) ==>
              Withdraw(s, slug, u).reply == Void && PostAt(Withdraw(s, slug, u).store, slug).None?
    ensures !Removable(s, slug, u) ==> Withdraw(s, slug, u).store == s
    ensures OneSlugEach(Withdraw(s, slug, u).store)
    ensures PostAt(s, slug).None? ==> Withdraw(s, slug, u) == Answer(s, Void)
  {
  }

  /**
   * Two overlapping deletes at one slug answer and leave the store as in one of the two serial orders exactly when
   * they are not two deletes by the author of a removable post.  In that case both succeed, while in turn the second
   * finds nothing.
   */
  lemma OverlappingDeletesAreSerialIff(db: Db, u: int, v: int, slug: string, now: int)
    requires Integrity(db) && u in db.tables.users && v in db.tables.users
    ensures
      var s, r, q := Abstract(db), RemoveArticle(u, slug), RemoveArticle(v, slug);
      var o := Overlapping(db, r, q, now);
      && (IsSerial(db, r, q, now) <==> !(u == v && Removable(s, slug, u)))
      && (u == v && Removable(s, slug, u) ==>
            && o.first == Finished(r, Empty) && o.second == Finished(r, Empty)
            && InTurn(db, r, r, now) == Outcome(Finished(r, Empty), Finished(r, NotFound), o.store))
  {
    hide Integrity, Abstract, Overlapping, InTurn, Withdraw, PostAt, OneSlugEach, HasAuthors, Removable;
    var s := Abstract(db);
    StoreFacts(db);
    OverlappingOutcome(db, u, v, slug, now);
    InTurnOutcome(db, u, v, slug, now);
    InTurnOutcome(db, v, u, slug, now);
    WithdrawOnce(s, slug, u);
    WithdrawOnce(s, slug, v);
    WithdrawOnce(Withdraw(s, slug, u).store, slug, v);
    OnlyAuthorsRemove(s, slug, u, v);
  }

  lemma OnlyAuthorsRemove(s: Store, slug: string, u: int, v: int)
    ensures Removable(s, slug, u) && Removable(s, slug, v) ==> u == v
    ensures Removable(s, slug, u) ==> PostAt(s, slug).Some?
    ensures Removable(s, slug, u) && u != v ==> Withdraw(s, slug, v) == Answer(s, Void)
  {
  }

  // ---- the same for comments: two checks, then two deletes ----

  lemma RemovedIsGone(db: Db, comment: int, slug: string, u: int, v: int)
    ensures
      var done := Mutators.RemoveComment(db, comment, slug, u).db;
      && (CommentMatches(db.tables, comment, slug, u) ==> !CommentMatches(done.tables, comment, slug, v))
      && (!CommentMatches(db.tables, comment, slug, u) ==> done == db)
    ensures
      CommentMatches(db.tables, comment, slug, u) && CommentMatches(db.tables, comment, slug, v) ==> u == v
  {
    hide ArticleAt;
  }

  lemma OverlappingChecks(db: Db, r: Request, q: Request, now: int)
    requires r.RemoveComment? && q.RemoveComment? && r.comment == q.comment && r.slug == q.slug
    ensures
      var t, one := db.tables, Mutators.RemoveComment(db, r.comment, r.slug, r.user).db;
      var mine, theirs := CommentMatches(t, r.comment, r.slug, r.user), CommentMatches(t, q.comment, q.slug, q.user);
      var mid := if mine then one else db;
      var two := Mutators.RemoveComment(mid, q.comment, q.slug, q.user).db;
      Overlapping(db, r, q, now)
      == Outcome(Finished(r, if mine then Empty else NotFound), Finished(q, if theirs then Empty else NotFound),
                 Abstract(if theirs then two else mid))
  {
    hide Advance, Mutators.RemoveComment, CommentMatches, Abstract;
    CommentLookup(db, r, now);
    CommentLookup(db, q, now);
    NothingToAdvance(Finished(r, NotFound), db, now);
    CheckedDelete(db, r, now);
    var mid := Advance(Advance(Start(r), db, now).handler, db, now).db;
    NothingToAdvance(Finished(q, NotFound), mid, now);
    CheckedDelete(mid, q, now);
  }

  /**
   * Two overlapping deletes of one comment come out as in one of the two serial orders exactly when they are not two
   * deletes by the comment's author that both find it.  In that case both succeed, while in turn the second finds
   * nothing.
   */
  lemma OverlappingCommentDeletesAreSerialIff(db: Db, u: int, v: int, slug: string, comment: int, now: int)
    ensures
      var r, q := Request.RemoveComment(u, slug, comment), Request.RemoveComment(v, slug, comment);
      var o, mine := Overlapping(db, r, q, now), CommentMatches(db.tables, comment, slug, u);
      && (IsSerial(db, r, q, now) <==> !(u == v && mine))
      && (u == v && mine ==>
            && o.first == Finished(r, Empty) && o.second == Finished(r, Empty)
            && InTurn(db, r, r, now) == Outcome(Finished(r, Empty), Finished(r, NotFound), o.store))
  {
    hide Advance, Complete, Overlapping, Mutators.RemoveComment, CommentMatches, Abstract;
    var r, q := Request.RemoveComment(u, slug, comment), Request.RemoveComment(v, slug, comment);
    OverlappingChecks(db, r, q, now);
    CommentAlone(db, r, now);
    CommentAlone(db, q, now);
    var withoutR := Mutators.RemoveComment(db, comment, slug, u).db;
    var withoutQ := Mutators.RemoveComment(db, comment, slug, v).db;
    CommentAlone(withoutR, q, now);
    CommentAlone(withoutQ, r, now);
    RemovedIsGone(db, comment, slug, u, v);
    RemovedIsGone(db, comment, slug, v, u);
    RemovedIsGone(withoutR, comment, slug, v, u);
    RemovedIsGone(withoutQ, comment, slug, u, v);
  }
}

/** Sequences of rows: table scans, sorting, LIMIT and OFFSET, counting. */
module Rows {
  import opened Prelude

  predicate NoDuplicates<T(==)>(s: seq<T>) {
    forall i, j | 0 <= i < j < |s| :: s[i] != s[j]
  }

  /** A scan visits every element of a table exactly once, in any order. */
  predicate Enumerates<T(==)>(scan: seq<T>, table: set<T>) {
    && NoDuplicates(scan)
    && (forall x | x in scan :: x in table)
    && (forall x | x in table :: x in scan)
  }

  ghost function EnumerationOf<T>(table: set<T>): (scan: seq<T>)
    ensures Enumerates(scan, table)
  {
    if table == {} then []
    else
      var x :| x in table;
      EnumerationOf(table - {x}) + [x]
  }

  // ---- sorting ----

  ghost predicate TotalPreorder<T(!new)>(le: (T, T) -> bool) {
    && (forall x, y :: le(x, y) || le(y, x))
    && (forall x, y, z :: le(x, y) && le(y, z) ==> le(x, z))
  }

  predicate SortedBy<T>(le: (T, T) -> bool, s: seq<T>) {
    forall i, j | 0 <= i < j < |s| :: le(s[i], s[j])
  }

  function InsertBy<T>(le: (T, T) -> bool, x: T, s: seq<T>): (r: seq<T>)
    ensures multiset(r) == multiset(s) + multiset{x}
    ensures |r| == |s| + 1
  {
    if s == [] then [x]
    else
      assert s == [s[0]] + s[1..];
      if le(x, s[0]) then [x] + s
      else [s[0]] + InsertBy(le, x, s[1..])
  }

  /** ORDER BY: the rows come in scan order and rows that tie keep it, so every admissible order is some scan's. */
  function OrderBy<T>(le: (T, T) -> bool, s: seq<T>): (r: seq<T>)
    ensures multiset(r) == multiset(s)
    ensures |r| == |s|
  {
    if s == [] then []
    else
      assert s == [s[0]] + s[1..];
      InsertBy(le, s[0], OrderBy(le, s[1..]))
  }

  lemma {:induction false} InsertBySorts<T(!new)>(le: (T, T) -> bool, x: T, s: seq<T>)
    requires TotalPreorder(le) && SortedBy(le, s)
    ensures SortedBy(le, InsertBy(le, x, s))
  {
    if s != [] && !le(x, s[0]) {
      var r := InsertBy(le, x, s[1..]);
      InsertBySorts(le, x, s[1..]);
      forall y | y in r ensures le(s[0], y) {
        assert y in multiset(r);
        assert y == x || y in s[1..];
      }
    }
  }

  lemma {:induction false} OrderBySorts<T(!new)>(le: (T, T) -> bool, s: seq<T>)
    requires TotalPreorder(le)
    ensures SortedBy(le, OrderBy(le, s))
  {
    if s != [] {
      OrderBySorts(le, s[1..]);
      InsertBySorts(le, s[0], OrderBy(le, s[1..]));
    }
  }

  lemma SameElements<T>(s: seq<T>, r: seq<T>)
    requires multiset(s) == multiset(r)
    ensures forall x :: x in s <==> x in r
  {
    forall x ensures x in s <==> x in r {
      assert x in s <==> x in multiset(s);
      assert x in r <==> x in multiset(r);
    }
  }

  lemma {:induction false} DuplicateFreeCounts<T>(s: seq<T>)
    ensures NoDuplicates(s) <==> forall x | x in s :: multiset(s)[x] == 1
  {
    if s != [] {
      var rest := s[1..];
      assert s == [s[0]] + rest;
      DuplicateFreeCounts(rest);
      if NoDuplicates(s) {
        assert NoDuplicates(rest);
        assert s[0] !in rest;
      } else if s[0] in rest {
        assert s[0] in multiset(rest);
        assert multiset(s)[s[0]] >= 2;
      } else {
        assert !NoDuplicates(rest);
        var x :| x in rest && multiset(rest)[x] != 1;
        assert multiset(s)[x] != 1;
      }
    }
  }

  lemma PermutationKeepsNoDuplicates<T>(s: seq<T>, r: seq<T>)
    requires multiset(s) == multiset(r) && NoDuplicates(s)
    ensures NoDuplicates(r)
  {
    DuplicateFreeCounts(s);
    DuplicateFreeCounts(r);
    SameElements(s, r);
  }

  /** Two sequences in strictly the same order with the same elements are the same sequence. */
  lemma {:induction false} StrictOrderDetermines<T(!new)>(lt: (T, T) -> bool, s: seq<T>, r: seq<T>)
    requires forall x, y :: !(lt(x, y) && lt(y, x))
    requires SortedBy(lt, s) && SortedBy(lt, r)
    requires forall x :: x in s <==> x in r
    ensures s == r
    decreases |s|
  {
    assert r != [] ==> r[0] in s;
    if s != [] {
      assert s[0] in r;
      FirstComesFirst(lt, s, r[0]);
      FirstComesFirst(lt, r, s[0]);
      StrictlySortedTail(lt, s);
      StrictlySortedTail(lt, r);
      StrictOrderDetermines(lt, s[1..], r[1..]);
    }
  }

  lemma FirstComesFirst<T>(lt: (T, T) -> bool, s: seq<T>, x: T)
    requires SortedBy(lt, s) && x in s
    ensures x == s[0] || lt(s[0], x)
  {
  }

  lemma StrictlySortedTail<T(!new)>(lt: (T, T) -> bool, s: seq<T>)
    requires forall x, y :: !(lt(x, y) && lt(y, x))
    requires s != [] && SortedBy(lt, s)
    ensures SortedBy(lt, s[1..])
    ensures forall x :: x in s[1..] <==> x in s && x != s[0]
  {
    forall x | x in s[1..] ensures x != s[0] {
      assert lt(s[0], x);
    }
  }

  // ---- LIMIT and OFFSET ----

  datatype Page<T> = Page(rows: seq<T>) | BadBounds

  function Drop<T>(s: seq<T>, n: nat): seq<T> {
    if n <= |s| then s[n..] else []
  }

  function Take<T>(s: seq<T>, n: nat): seq<T> {
    if n <= |s| then s[..n] else s
  }

  /** An absent limit means all rows; a negative bound is an error. */
  function Window<T>(s: seq<T>, limit: Option<int>, offset: int): Page<T> {
    if offset < 0 || (limit.Some? && limit.value < 0) then BadBounds
    else
      var rest := Drop(s, offset);
      Page(if limit.None? then rest else Take(rest, limit.value))
  }

  /** LIMIT and OFFSET row by row: which bounds are refused, how many rows come, and which. */
  lemma WindowByIndex<T>(s: seq<T>, limit: Option<int>, offset: int)
    ensures Window(s, limit, offset).BadBounds? <==> offset < 0 || (limit.Some? && limit.value < 0)
    ensures
      Window(s, limit, offset).Page? ==>
        var rows := Window(s, limit, offset).rows;
        var left := if offset < |s| then |s| - offset else 0;
        && |rows| == (if limit.Some? && limit.value < left then limit.value else left)
        && (forall i | 0 <= i < |rows| :: rows[i] == s[offset + i])
  {
  }

  // ---- counting ----

  lemma {:induction false} SubsetIsNoLarger<T>(a: set<T>, b: set<T>)
    requires a <= b
    ensures |a| <= |b|
    ensures a != b ==> |a| < |b|
  {
    if a != {} {
      var x :| x in a;
      SubsetIsNoLarger(a - {x}, b - {x});
      if a != b {
        assert a - {x} != b - {x} by {
          var y :| y in b && y !in a;
        }
      }
    } else if a != b {
      assert |b| > 0;
    }
  }

  /** At most n different integers fit between 1 and n. */
  lemma {:induction false} Pigeonhole(s: set<int>, n: nat)
    requires forall x | x in s :: 1 <= x <= n
    ensures |s| <= n
  {
    if n > 0 {
      Pigeonhole(s - {n}, n - 1);
    } else {
      assert forall x :: x !in s;
    }
  }

  lemma {:induction false} ScanLength<T>(scan: seq<T>, table: set<T>)
    requires Enumerates(scan, table)
    ensures |scan| == |table|
  {
    if scan == [] {
      assert table == {};
    } else {
      var rest := scan[1..];
      forall x | x in table - {scan[0]} ensures x in rest {
        assert x in scan;
      }
      ScanLength(rest, table - {scan[0]});
    }
  }
}

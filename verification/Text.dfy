/**
 * Text as the database and the handlers see it.  Four things are decided outside the repository and stay
 * uninterpreted here: how CITEXT folds case, how ICU turns a title into a slug, which passwords BCrypt finds to match
 * a hash, and the collation of the database.  Whatever is proved holds for every choice of the four.
 */
module Text {
  /** Two CITEXT values are equal when their folded forms are. */
  const FoldCase: string -> string

  /** slug::Slugify. */
  const Slugify: string -> string

  /** BCrypt::validatePassword, on a password and a stored hash. */
  const PasswordMatches: (string, string) -> bool

  ghost predicate IsTotalOrder(le: (string, string) -> bool) {
    && (forall x, y :: le(x, y) || le(y, x))
    && (forall x, y :: le(x, y) && le(y, x) ==> x == y)
    && (forall x, y, z :: le(x, y) && le(y, z) ==> le(x, z))
  }

  /** A deterministic collation orders all strings and never ties two different ones. */
  type Collation = le: (string, string) -> bool | IsTotalOrder(le)
    witness (CodePointOrderIsTotal(); CodePointOrder)

  const Collates: Collation

  /** The collation "C", which shows that there is one. */
  predicate CodePointOrder(a: string, b: string) {
    |a| == 0 || (|b| > 0 && (a[0] < b[0] || (a[0] == b[0] && CodePointOrder(a[1..], b[1..]))))
  }

  lemma CodePointOrderIsTotal()
    ensures IsTotalOrder(CodePointOrder)
  {
    forall a, b ensures CodePointOrder(a, b) || CodePointOrder(b, a) {
      CodePointOrderTotal(a, b);
    }
    forall a, b | CodePointOrder(a, b) && CodePointOrder(b, a) ensures a == b {
      CodePointOrderAntisymmetric(a, b);
    }
    forall a, b, c | CodePointOrder(a, b) && CodePointOrder(b, c) ensures CodePointOrder(a, c) {
      CodePointOrderTransitive(a, b, c);
    }
  }

  lemma {:induction false} CodePointOrderTotal(a: string, b: string)
    ensures CodePointOrder(a, b) || CodePointOrder(b, a)
  {
    if |a| > 0 && |b| > 0 {
      CodePointOrderTotal(a[1..], b[1..]);
    }
  }

  lemma {:induction false} CodePointOrderAntisymmetric(a: string, b: string)
    requires CodePointOrder(a, b) && CodePointOrder(b, a)
    ensures a == b
  {
    if |a| > 0 && |b| > 0 {
      CodePointOrderAntisymmetric(a[1..], b[1..]);
      assert a == [a[0]] + a[1..];
      assert b == [b[0]] + b[1..];
    }
  }

  lemma {:induction false} CodePointOrderTransitive(a: string, b: string, c: string)
    requires CodePointOrder(a, b) && CodePointOrder(b, c)
    ensures CodePointOrder(a, c)
  {
    if |a| > 0 && |b| > 0 && |c| > 0 && a[0] == b[0] == c[0] {
      CodePointOrderTransitive(a[1..], b[1..], c[1..]);
    }
  }
}

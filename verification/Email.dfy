/**
 * The e-mail pattern (\w+)(\.|_)?(\w*)@(\w+)(\.(\w+))+ as a regular expression with its textbook meaning, as a
 * one-pass automaton, and as a description of the addresses it lets through.  The three agree.
 */
module Email {
  /** \w without a locale. */
  predicate IsWord(c: char) {
    'a' <= c <= 'z' || 'A' <= c <= 'Z' || '0' <= c <= '9' || c == '_'
  }

  /** The word characters by code: digits, capitals, the underscore and small letters. */
  lemma WordCharacters(c: char)
    ensures
      IsWord(c) <==>
      48 <= c as int <= 57 || 65 <= c as int <= 90 || c as int == 95 || 97 <= c as int <= 122
  {
  }

  predicate Words(s: string) {
    forall i | 0 <= i < |s| :: IsWord(s[i])
  }

  // ---- the regular expression ----

  datatype Regex =
    | Word
    | Literal(c: char)
    | Then(first: Regex, second: Regex)
    | Either(left: Regex, right: Regex)
    | Maybe(body: Regex)
    | Plus(body: Regex)

  ghost predicate Matches(r: Regex, s: string)
    decreases r, |s|
  {
    match r
    case Word => |s| == 1 && IsWord(s[0])
    case Literal(c) => s == [c]
    case Then(a, b) => exists i | 0 <= i <= |s| :: Matches(a, s[..i]) && Matches(b, s[i..])
    case Either(a, b) => Matches(a, s) || Matches(b, s)
    case Maybe(a) => s == [] || Matches(a, s)
    case Plus(a) => Matches(a, s) || exists i | 0 < i < |s| :: Matches(a, s[..i]) && Matches(r, s[i..])
  }

  const WORDS := Plus(Word)
  const LABELS := Plus(Then(Literal('.'), WORDS))
  const DOMAIN := Then(WORDS, LABELS)
  const SEPARATOR := Either(Literal('.'), Literal('_'))
  const AFTER_SECOND_WORDS := Then(Literal('@'), DOMAIN)
  const AFTER_SEPARATOR := Then(Maybe(WORDS), AFTER_SECOND_WORDS)
  const AFTER_WORDS := Then(Maybe(SEPARATOR), AFTER_SEPARATOR)
  const PATTERN := Then(WORDS, AFTER_WORDS)

  // ---- the automaton ----

  datatype State = Begin | Local | LocalAfterDot | DomainBegin | FirstLabel | LabelBegin | Label | Reject

  function Step(q: State, c: char): State {
    match q
    case Begin => if IsWord(c) then Local else Reject
    case Local =>
      if IsWord(c) then Local else if c == '.' then LocalAfterDot else if c == '@' then DomainBegin else Reject
    case LocalAfterDot => if IsWord(c) then LocalAfterDot else if c == '@' then DomainBegin else Reject
    case DomainBegin => if IsWord(c) then FirstLabel else Reject
    case FirstLabel => if IsWord(c) then FirstLabel else if c == '.' then LabelBegin else Reject
    case LabelBegin => if IsWord(c) then Label else Reject
    case Label => if IsWord(c) then Label else if c == '.' then LabelBegin else Reject
    case Reject => Reject
  }

  predicate Accepts(q: State, s: string)
    decreases |s|
  {
    if s == [] then q == Label else Accepts(Step(q, s[0]), s[1..])
  }

  // ---- the description ----

  ghost predicate AllLabels(labels: seq<string>) {
    forall i | 0 <= i < |labels| :: labels[i] != [] && Words(labels[i])
  }

  /** Every label with a dot in front. */
  function Dotted(labels: seq<string>): string {
    if labels == [] then [] else "." + labels[0] + Dotted(labels[1..])
  }

  function JoinWithDots(labels: seq<string>): string
    requires labels != []
  {
    labels[0] + Dotted(labels[1..])
  }

  /** At least two nonempty labels of word characters. */
  ghost predicate IsDomain(s: string) {
    exists labels | |labels| >= 2 && AllLabels(labels) :: s == JoinWithDots(labels)
  }

  predicate AtMostOneDot(s: string) {
    forall i, j | 0 <= i < j < |s| :: !(s[i] == '.' && s[j] == '.')
  }

  /** Word characters and at most one dot, which does not come first. */
  predicate IsLocalPart(s: string) {
    s != [] && s[0] != '.' && (forall i | 0 <= i < |s| :: IsWord(s[i]) || s[i] == '.') && AtMostOneDot(s)
  }

  ghost predicate IsAddress(s: string) {
    exists i | 0 <= i < |s| :: s[i] == '@' && IsLocalPart(s[..i]) && IsDomain(s[i + 1..])
  }

  // ---- the automaton accepts the description ----

  ghost predicate TailParts(s: string, least: nat, w: string, labels: seq<string>) {
    Words(w) && |labels| >= least && AllLabels(labels) && s == w + Dotted(labels)
  }

  /** The rest of a label, then at least `least` more labels. */
  ghost predicate IsTail(s: string, least: nat) {
    exists w, labels :: TailParts(s, least, w, labels)
  }

  function Less(n: nat): nat {
    if n > 0 then n - 1 else 0
  }

  lemma TailShrinks(s: string, least: nat, w: string, labels: seq<string>)
    requires s != [] && TailParts(s, least, w, labels)
    ensures w != [] ==> IsWord(s[0]) && IsTail(s[1..], least)
    ensures w == [] ==> s[0] == '.' && |s| > 1 && IsWord(s[1]) && IsTail(s[2..], Less(least))
  {
    if w != [] {
      assert s[1..] == w[1..] + Dotted(labels);
      assert TailParts(s[1..], least, w[1..], labels);
    } else {
      assert s == Dotted(labels);
      FirstLabelOf(s, labels);
      assert TailParts(s[2..], Less(least), labels[0][1..], labels[1..]);
    }
  }

  lemma FirstLabelOf(s: string, labels: seq<string>)
    requires s != [] && s == Dotted(labels) && AllLabels(labels)
    ensures labels != [] && labels[0] != [] && Words(labels[0]) && |s| > 1
    ensures s[0] == '.' && s[1] == labels[0][0] && s[2..] == labels[0][1..] + Dotted(labels[1..])
  {
    assert labels[0] != [];
    assert s == "." + labels[0] + Dotted(labels[1..]);
  }

  lemma TailGrows(s: string, least: nat, w: string, labels: seq<string>)
    requires s != []
    ensures IsWord(s[0]) && TailParts(s[1..], least, w, labels) ==> TailParts(s, least, [s[0]] + w, labels)
    ensures s[0] == '.' && |s| > 1 && IsWord(s[1]) && TailParts(s[2..], Less(least), w, labels)
            ==> TailParts(s, least, [], [[s[1]] + w] + labels)
  {
    if IsWord(s[0]) && TailParts(s[1..], least, w, labels) {
      assert s == ([s[0]] + w) + Dotted(labels);
    }
    if s[0] == '.' && |s| > 1 && IsWord(s[1]) && TailParts(s[2..], Less(least), w, labels) {
      var more := [[s[1]] + w] + labels;
      assert more[1..] == labels;
      assert Dotted(more) == "." + more[0] + Dotted(labels);
      assert s == [] + Dotted(more);
    }
  }

  lemma TailStep(s: string, least: nat)
    requires s != []
    ensures
      IsTail(s, least) <==>
      if IsWord(s[0]) then IsTail(s[1..], least)
      else s[0] == '.' && |s| > 1 && IsWord(s[1]) && IsTail(s[2..], Less(least))
  {
    hide TailParts;
    if IsTail(s, least) {
      var w, labels :| TailParts(s, least, w, labels);
      TailShrinks(s, least, w, labels);
    }
    if IsWord(s[0]) && IsTail(s[1..], least) {
      var w, labels :| TailParts(s[1..], least, w, labels);
      TailGrows(s, least, w, labels);
    }
    if s[0] == '.' && |s| > 1 && IsWord(s[1]) && IsTail(s[2..], Less(least)) {
      var w, labels :| TailParts(s[2..], Less(least), w, labels);
      TailGrows(s, least, w, labels);
      assert TailParts(s, least, [], [[s[1]] + w] + labels);
    }
  }

  lemma EmptyTail(least: nat)
    ensures IsTail([], least) <==> least == 0
  {
    assert TailParts([], 0, [], []);
    if w, labels :| TailParts([], least, w, labels) {
      assert labels == [];
    }
  }

  lemma {:induction false} AcceptsTails(s: string)
    ensures Accepts(Label, s) <==> IsTail(s, 0)
    ensures Accepts(FirstLabel, s) <==> IsTail(s, 1)
    ensures !Accepts(Reject, s)
    decreases |s|
  {
    if s == [] {
      EmptyTail(0);
      EmptyTail(1);
    } else {
      AcceptsTails(s[1..]);
      TailStep(s, 0);
      TailStep(s, 1);
      if |s| > 1 {
        AcceptsTails(s[2..]);
        assert s[1..][1..] == s[2..];
      }
    }
  }

  lemma DomainIsTail(s: string)
    ensures IsDomain(s) <==> s != [] && IsWord(s[0]) && IsTail(s[1..], 1)
  {
    if labels :| |labels| >= 2 && AllLabels(labels) && s == JoinWithDots(labels) {
      assert s[1..] == labels[0][1..] + Dotted(labels[1..]);
      assert TailParts(s[1..], 1, labels[0][1..], labels[1..]);
    }
    if s != [] && IsWord(s[0]) {
      if w, labels :| TailParts(s[1..], 1, w, labels) {
        JoinedDomain(s, w, labels);
      }
    }
  }

  lemma JoinedDomain(s: string, w: string, labels: seq<string>)
    requires s != [] && IsWord(s[0]) && TailParts(s[1..], 1, w, labels)
    ensures IsDomain(s)
  {
    var more := [[s[0]] + w] + labels;
    assert more[1..] == labels;
    assert s == JoinWithDots(more);
  }

  lemma AcceptsDomains(s: string)
    ensures Accepts(DomainBegin, s) <==> IsDomain(s)
  {
    DomainIsTail(s);
    if s != [] {
      AcceptsTails(s[1..]);
    }
  }

  ghost predicate EndsAt(before: string, s: string, i: int) {
    0 <= i < |s| && s[i] == '@' && IsLocalPart(before + s[..i]) && IsDomain(s[i + 1..])
  }

  /** After the part `before` of the local part has been read. */
  ghost predicate CompletesAddress(before: string, s: string) {
    exists i :: EndsAt(before, s, i)
  }

  lemma {:induction false} AcceptsLocalParts(before: string, s: string)
    requires IsLocalPart(before)
    ensures Accepts(if '.' in before then LocalAfterDot else Local, s) <==> CompletesAddress(before, s)
    decreases |s|
  {
    if s != [] {
      var q, c := if '.' in before then LocalAfterDot else Local, s[0];
      AcceptsTails(s[1..]);
      if IsWord(c) || (c == '.' && q == Local) {
        AcceptsLocalParts(before + [c], s[1..]);
        CompletesStep(before, s);
      } else if c == '@' {
        AcceptsDomains(s[1..]);
        AtEndsLocalPart(before, s);
      } else {
        NoLocalPart(before, s);
      }
    }
  }

  lemma EndMoves(before: string, s: string, i: int)
    requires s != [] && 0 <= i < |s| - 1
    ensures EndsAt(before, s, i + 1) <==> EndsAt(before + [s[0]], s[1..], i)
  {
    hide IsLocalPart, IsDomain;
    assert before + s[..i + 1] == before + [s[0]] + s[1..][..i];
    assert s[i + 1 + 1..] == s[1..][i + 1..];
  }

  lemma CompletesStep(before: string, s: string)
    requires s != [] && s[0] != '@'
    ensures CompletesAddress(before, s) <==> CompletesAddress(before + [s[0]], s[1..])
  {
    hide IsLocalPart, IsDomain;
    if i :| EndsAt(before, s, i) {
      EndMoves(before, s, i - 1);
    }
    if i :| EndsAt(before + [s[0]], s[1..], i) {
      EndMoves(before, s, i);
    }
  }

  lemma AtEndsLocalPart(before: string, s: string)
    requires s != [] && s[0] == '@' && IsLocalPart(before)
    ensures CompletesAddress(before, s) <==> IsDomain(s[1..])
  {
    hide IsDomain;
    assert before + s[..0] == before;
    assert EndsAt(before, s, 0) <==> IsDomain(s[1..]);
    forall i | 0 < i < |s| ensures !IsLocalPart(before + s[..i]) {
      assert (before + s[..i])[|before|] == '@';
    }
  }

  /** A character that cannot stand there, or a second dot. */
  lemma NoLocalPart(before: string, s: string)
    requires s != [] && !IsWord(s[0]) && s[0] != '@' && (s[0] == '.' ==> '.' in before)
    ensures !CompletesAddress(before, s)
  {
    hide IsDomain;
    forall i | 0 < i < |s| ensures !IsLocalPart(before + s[..i]) {
      assert (before + s[..i])[|before|] == s[0];
      if s[0] == '.' {
        var k :| 0 <= k < |before| && before[k] == '.';
        assert (before + s[..i])[k] == '.';
      }
    }
  }

  lemma AddressIsCompletion(s: string)
    ensures IsAddress(s) <==> CompletesAddress([], s)
  {
    hide IsLocalPart, IsDomain;
    assert forall i | 0 <= i < |s| :: [] + s[..i] == s[..i];
    if i :| 0 <= i < |s| && s[i] == '@' && IsLocalPart(s[..i]) && IsDomain(s[i + 1..]) {
      assert EndsAt([], s, i);
    }
    if i :| EndsAt([], s, i) {
      assert IsLocalPart(s[..i]);
    }
  }

  lemma AutomatonIsAddress(s: string)
    ensures Accepts(Begin, s) <==> IsAddress(s)
  {
    AddressIsCompletion(s);
    if s != [] {
      AcceptsTails(s[1..]);
      if IsWord(s[0]) {
        AcceptsLocalParts([s[0]], s[1..]);
        CompletesStep([], s);
        assert [] + [s[0]] == [s[0]];
      } else {
        forall i | 0 < i < |s| ensures !IsLocalPart([] + s[..i]) {
          assert ([] + s[..i])[0] == s[0];
        }
      }
    }
  }

  // ---- the regular expression matches the description ----

  lemma MatchesThen(a: Regex, b: Regex, x: string, y: string)
    requires Matches(a, x) && Matches(b, y)
    ensures Matches(Then(a, b), x + y)
  {
    assert (x + y)[..|x|] == x && (x + y)[|x|..] == y;
  }

  lemma SplitOf(a: Regex, b: Regex, s: string) returns (x: string, y: string)
    requires Matches(Then(a, b), s)
    ensures s == x + y && Matches(a, x) && Matches(b, y)
  {
    var i :| 0 <= i <= |s| && Matches(a, s[..i]) && Matches(b, s[i..]);
    x, y := s[..i], s[i..];
  }

  lemma {:induction false} MatchesWords(s: string)
    ensures Matches(WORDS, s) <==> s != [] && Words(s)
    decreases |s|
  {
    if |s| > 1 {
      forall i | 0 < i < |s| ensures Matches(Word, s[..i]) && Matches(WORDS, s[i..]) <==> i == 1 && Words(s) {
        MatchesWords(s[i..]);
        if i == 1 && IsWord(s[0]) && Words(s[1..]) {
          assert forall k | 0 < k < |s| :: s[k] == s[1..][k - 1];
        }
      }
      assert Words(s) ==> Matches(Word, s[..1]) && Matches(WORDS, s[1..]);
    }
  }

  lemma MatchesLabel(s: string)
    ensures Matches(Then(Literal('.'), WORDS), s) <==> |s| > 1 && s[0] == '.' && Words(s[1..])
  {
    if Matches(Then(Literal('.'), WORDS), s) {
      var x, y := SplitOf(Literal('.'), WORDS, s);
      MatchesWords(y);
      assert s[1..] == y;
    }
    if |s| > 1 && s[0] == '.' && Words(s[1..]) {
      MatchesWords(s[1..]);
      assert s == "." + s[1..];
      MatchesThen(Literal('.'), WORDS, ".", s[1..]);
    }
  }

  ghost predicate IsDotted(s: string) {
    exists labels | labels != [] && AllLabels(labels) :: s == Dotted(labels)
  }

  lemma DottedOnce(s: string)
    requires |s| > 1 && s[0] == '.' && Words(s[1..])
    ensures IsDotted(s)
  {
    var labels := [s[1..]];
    assert Dotted(labels) == "." + s[1..] + Dotted([]);
    assert s == Dotted(labels);
  }

  lemma DottedMore(s: string, i: int)
    requires 1 < i < |s| && s[0] == '.' && Words(s[1..i]) && IsDotted(s[i..])
    ensures IsDotted(s)
  {
    var rest :| rest != [] && AllLabels(rest) && s[i..] == Dotted(rest);
    var labels := [s[1..i]] + rest;
    assert labels[1..] == rest;
    assert s == "." + s[1..i] + s[i..];
    assert s == Dotted(labels);
  }

  lemma {:induction false} MatchesLabels(s: string)
    ensures Matches(LABELS, s) ==> IsDotted(s)
    decreases |s|
  {
    if Matches(LABELS, s) {
      MatchesLabel(s);
      if Matches(Then(Literal('.'), WORDS), s) {
        DottedOnce(s);
      } else {
        var i :| 0 < i < |s| && Matches(Then(Literal('.'), WORDS), s[..i]) && Matches(LABELS, s[i..]);
        MatchesLabel(s[..i]);
        assert s[..i][1..] == s[1..i];
        MatchesLabels(s[i..]);
        DottedMore(s, i);
      }
    }
  }

  lemma {:induction false} DottedMatches(labels: seq<string>)
    requires labels != [] && AllLabels(labels)
    ensures Matches(LABELS, Dotted(labels))
    decreases |labels|
  {
    var s, n := Dotted(labels), |labels[0]| + 1;
    assert s[..n] == "." + labels[0];
    assert s[n..] == Dotted(labels[1..]);
    assert s[..n][1..] == labels[0];
    MatchesLabel(s[..n]);
    if |labels| == 1 {
      assert s == s[..n];
    } else {
      DottedMatches(labels[1..]);
      assert s[n..] != [];
    }
  }

  lemma MatchesDomain(s: string)
    ensures Matches(DOMAIN, s) <==> IsDomain(s)
  {
    hide Matches;
    if Matches(DOMAIN, s) {
      var x, y := SplitOf(WORDS, LABELS, s);
      MatchesWords(x);
      MatchesLabels(y);
      var rest :| rest != [] && AllLabels(rest) && y == Dotted(rest);
      var labels := [x] + rest;
      assert labels[1..] == rest;
      assert s == JoinWithDots(labels);
    }
    if labels :| |labels| >= 2 && AllLabels(labels) && s == JoinWithDots(labels) {
      MatchesWords(labels[0]);
      DottedMatches(labels[1..]);
      MatchesThen(WORDS, LABELS, labels[0], Dotted(labels[1..]));
    }
  }

  lemma MatchesHost(s: string)
    ensures Matches(AFTER_SECOND_WORDS, s) <==> s != [] && s[0] == '@' && IsDomain(s[1..])
  {
    hide IsDomain;
    if Matches(AFTER_SECOND_WORDS, s) {
      var x, y := SplitOf(Literal('@'), DOMAIN, s);
      MatchesDomain(y);
      assert s[1..] == y;
    }
    if s != [] && s[0] == '@' && IsDomain(s[1..]) {
      assert s == "@" + s[1..];
      MatchesDomain(s[1..]);
      MatchesThen(Literal('@'), DOMAIN, "@", s[1..]);
    }
  }

  /** A local part is words, then perhaps a separator, then perhaps more words. */
  lemma PartsAreLocal(a: string, b: string, c: string)
    requires a != [] && Words(a) && (b == [] || b == "." || b == "_") && Words(c)
    ensures IsLocalPart(a + b + c)
  {
  }

  lemma LocalHasParts(s: string) returns (a: string, b: string, c: string)
    requires IsLocalPart(s)
    ensures s == a + b + c && a != [] && Words(a) && (b == [] || b == ".") && Words(c)
  {
    if k :| 0 <= k < |s| && s[k] == '.' {
      a, b, c := s[..k], ".", s[k + 1..];
      assert forall i | 0 <= i < |s| && i != k :: s[i] != '.';
    } else {
      a, b, c := s, [], [];
    }
  }

  lemma MatchesOptions(s: string)
    ensures Matches(Maybe(WORDS), s) <==> Words(s)
    ensures Matches(Maybe(SEPARATOR), s) <==> s == [] || s == "." || s == "_"
  {
    MatchesWords(s);
    assert Matches(SEPARATOR, s) <==> s == "." || s == "_";
  }

  lemma AddressOf(local: string, domain: string)
    requires IsLocalPart(local) && IsDomain(domain)
    ensures IsAddress(local + ("@" + domain))
  {
    hide IsLocalPart, IsDomain;
    var s, k := local + ("@" + domain), |local|;
    assert s[k] == '@' && s[..k] == local && s[k + 1..] == domain;
  }

  lemma MatchesPattern(s: string)
    requires Matches(PATTERN, s)
    ensures IsAddress(s)
  {
    hide Matches, IsLocalPart, IsDomain, IsAddress, Words;
    var a, s1 := SplitOf(WORDS, AFTER_WORDS, s);
    var b, s2 := SplitOf(Maybe(SEPARATOR), AFTER_SEPARATOR, s1);
    var c, host := SplitOf(Maybe(WORDS), AFTER_SECOND_WORDS, s2);
    MatchesWords(a);
    MatchesOptions(b);
    MatchesOptions(c);
    MatchesHost(host);
    PartsAreLocal(a, b, c);
    AddressOf(a + b + c, host[1..]);
    assert host == "@" + host[1..];
    assert s == a + b + c + host;
  }

  lemma AddressMatches(local: string, domain: string)
    requires IsLocalPart(local) && IsDomain(domain)
    ensures Matches(PATTERN, local + ("@" + domain))
  {
    hide Matches, IsLocalPart, IsDomain, Words;
    var a, b, c := LocalHasParts(local);
    var host := "@" + domain;
    assert host[1..] == domain;
    MatchesHost(host);
    MatchesOptions(c);
    MatchesThen(Maybe(WORDS), AFTER_SECOND_WORDS, c, host);
    MatchesOptions(b);
    MatchesThen(Maybe(SEPARATOR), AFTER_SEPARATOR, b, c + host);
    MatchesWords(a);
    MatchesThen(WORDS, AFTER_WORDS, a, b + (c + host));
    assert local + host == a + (b + (c + host));
  }

  /** The pattern, the one-pass automaton and the description let through the same strings. */
  lemma PatternAutomatonAndDescriptionAgree(s: string)
    ensures Matches(PATTERN, s) <==> Accepts(Begin, s)
    ensures Accepts(Begin, s) <==> IsAddress(s)
  {
    hide Matches, Accepts, IsLocalPart, IsDomain;
    AutomatonIsAddress(s);
    if Matches(PATTERN, s) {
      MatchesPattern(s);
    }
    if k :| 0 <= k < |s| && s[k] == '@' && IsLocalPart(s[..k]) && IsDomain(s[k + 1..]) {
      AddressMatches(s[..k], s[k + 1..]);
      assert s == s[..k] + ("@" + s[k + 1..]);
    }
  }
}

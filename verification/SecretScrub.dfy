/**
 Secret scrubbing: three case-insensitive patterns, each replaced by a fixed mark in one
 left-to-right pass, one pass after the other.  Text is ASCII.
 */
module SecretScrub {
  import opened AsciiText
  import opened LeftmostRewrite

  datatype Pattern = Labelled | GitHubToken | ApiKey

  const REDACTED := "[REDACTED]"

  // ----- character classes

  datatype Class = Space | Value | Word | KeyChar

  predicate IsWord(c: char) {
    'a' <= Fold(c) <= 'z' || '0' <= c <= '9' || c == '_'
  }

  predicate In(cl: Class, c: char) {
    match cl
    case Space => IsSpace(c)
    case Value => !IsSpace(c) && c != ',' && c != ';'
    case Word => IsWord(c)
    case KeyChar => IsWord(c) || c == '-'
  }

  predicate All(cl: Class, w: string, from: nat, to: nat)
    requires from <= to <= |w|
  {
    forall i :: from <= i < to ==> In(cl, w[i])
  }

  // ----- the languages of the three patterns, as the regular expressions read

  predicate Spells(w: string, lower: string) {
    |w| == |lower| && forall i :: 0 <= i < |w| ==> Fold(w[i]) == lower[i]
  }

  predicate IsLabel(w: string) {
    Spells(w, "apikey") || Spells(w, "api_key") || Spells(w, "api-key") ||
    Spells(w, "token") || Spells(w, "password") || Spells(w, "secret")
  }

  predicate IsSeparator(c: char) {
    c == ':' || c == '='
  }

  /** After a label of length `l`: blanks, a separator at `a`, blanks, and a value beginning at `b`. */
  predicate Parts(w: string, l: nat, a: nat, b: nat)
    requires l <= a < b < |w|
  {
    All(Space, w, l, a) && IsSeparator(w[a]) && All(Space, w, a + 1, b) && In(Value, w[b])
  }

  predicate IsGitHubPrefix(w: string) {
    |w| == 4 && Fold(w[0]) == 'g' && Fold(w[1]) == 'h' && Fold(w[2]) in {'o', 'p', 'u', 's', 'r'} && w[3] == '_'
  }

  predicate IsKeyPrefix(w: string) {
    |w| == 3 && Fold(w[0]) == 's' && Fold(w[1]) == 'k' && w[2] == '-'
  }

  ghost predicate InLanguage(p: Pattern, w: string) {
    match p
    case Labelled =>
      exists l, a, b :: 0 <= l <= a < b < |w| && IsLabel(w[..l]) && Parts(w, l, a, b) && All(Value, w, b, |w|)
    case GitHubToken => |w| >= 24 && IsGitHubPrefix(w[..4]) && All(Word, w, 4, |w|)
    case ApiKey => |w| >= 23 && IsKeyPrefix(w[..3]) && All(KeyChar, w, 3, |w|)
  }

  // ----- the matchers

  /** Where the longest stretch of the class that begins at `from` ends. */
  function RunEnd(cl: Class, s: string, from: nat): (to: nat)
    requires from <= |s|
    ensures from <= to <= |s| && All(cl, s, from, to) && (to < |s| ==> !In(cl, s[to]))
    decreases |s| - from
  {
    if from == |s| || !In(cl, s[from]) then from else RunEnd(cl, s, from + 1)
  }

  /** The letters of a label, in place. */
  lemma LabelLetters(s: string, k: nat)
    requires k <= |s| && IsLabel(s[..k])
    ensures 5 <= k <= 8
    ensures k == 5 ==> Fold(s[0]) == 't'
    ensures k == 6 ==> (Fold(s[0]) == 'a' && Fold(s[3]) == 'k') || Fold(s[0]) == 's'
    ensures k == 7 ==> Fold(s[0]) == 'a' && (Fold(s[3]) == '_' || Fold(s[3]) == '-')
    ensures k == 8 ==> Fold(s[0]) == 'p'
  {
    assert k > 3 ==> s[..k][0] == s[0] && s[..k][3] == s[3];
  }

  lemma OneLabel(s: string)
    ensures forall j, k :: 0 <= j <= |s| && 0 <= k <= |s| && IsLabel(s[..j]) && IsLabel(s[..k]) ==> j == k
    ensures forall k :: 0 <= k <= |s| && IsLabel(s[..k]) ==> 5 <= k <= 8
  {
    forall k | 0 <= k <= |s| && IsLabel(s[..k]) ensures 5 <= k <= 8 { LabelLetters(s, k); }
    forall j, k | 0 <= j <= |s| && 0 <= k <= |s| && IsLabel(s[..j]) && IsLabel(s[..k]) ensures j == k {
      LabelLetters(s, j);
      LabelLetters(s, k);
    }
  }

  function LabelLength(s: string): (l: nat)
    ensures l <= |s|
    ensures l > 0 ==> IsLabel(s[..l])
    ensures forall k :: 0 < k <= |s| && IsLabel(s[..k]) ==> l == k
  {
    OneLabel(s);
    if |s| >= 6 && (Spells(s[..6], "apikey") || Spells(s[..6], "secret")) then 6
    else if |s| >= 7 && (Spells(s[..7], "api_key") || Spells(s[..7], "api-key")) then 7
    else if |s| >= 5 && Spells(s[..5], "token") then 5
    else if |s| >= 8 && Spells(s[..8], "password") then 8
    else 0
  }

  /** Length of a match whose label has length `l`, 0 when the rest does not fit. */
  function AfterLabel(s: string, l: nat): (n: nat)
    requires l <= |s|
    ensures n <= |s|
  {
    var a := RunEnd(Space, s, l);
    if a == |s| || !IsSeparator(s[a]) then 0 else
    var b := RunEnd(Space, s, a + 1);
    var e := RunEnd(Value, s, b);
    if e == b then 0 else e
  }

  function LabelledLength(s: string): nat {
    var l := LabelLength(s);
    if l == 0 then 0 else AfterLabel(s, l)
  }

  function TokenLength(s: string): nat {
    if |s| >= 4 && IsGitHubPrefix(s[..4]) && RunEnd(Word, s, 4) >= 24 then RunEnd(Word, s, 4) else 0
  }

  function KeyLength(s: string): nat {
    if |s| >= 3 && IsKeyPrefix(s[..3]) && RunEnd(KeyChar, s, 3) >= 23 then RunEnd(KeyChar, s, 3) else 0
  }

  function MatcherOf(p: Pattern): Matcher {
    match p
    case Labelled => (s: string) => LabelledLength(s)
    case GitHubToken => (s: string) => TokenLength(s)
    case ApiKey => (s: string) => KeyLength(s)
  }

  // ----- the matchers find the longest word of their language

  lemma RunEndIs(cl: Class, s: string, from: nat, to: nat)
    requires from <= to <= |s| && All(cl, s, from, to)
    ensures RunEnd(cl, s, from) >= to
    ensures to < |s| && !In(cl, s[to]) ==> RunEnd(cl, s, from) == to
  {
  }

  lemma AfterLabelIs(s: string, l: nat, a: nat, b: nat)
    requires l <= a < b < |s| && Parts(s, l, a, b)
    ensures AfterLabel(s, l) == RunEnd(Value, s, b) > b
  {
    RunEndIs(Space, s, l, a);
    RunEndIs(Space, s, a + 1, b);
    RunEndIs(Value, s, b, b + 1);
  }

  lemma AfterLabelSound(s: string, l: nat) returns (a: nat, b: nat)
    requires l <= |s| && AfterLabel(s, l) > 0
    ensures l <= a < b < AfterLabel(s, l) && Parts(s, l, a, b) && All(Value, s, b, AfterLabel(s, l))
  {
    a := RunEnd(Space, s, l);
    b := RunEnd(Space, s, a + 1);
  }

  /** The length found is that of a word of the language. */
  lemma MatchSound(p: Pattern, s: string)
    requires Hits(MatcherOf(p), s)
    ensures InLanguage(p, s[..MatcherOf(p)(s)])
  {
    var n := MatcherOf(p)(s);
    var w := s[..n];
    match p
    case Labelled =>
      var l := LabelLength(s);
      var a, b := AfterLabelSound(s, l);
      assert w[..l] == s[..l];
      assert IsLabel(w[..l]) && Parts(w, l, a, b) && All(Value, w, b, |w|);
    case GitHubToken => assert w[..4] == s[..4];
    case ApiKey => assert w[..3] == s[..3];
  }

  lemma LabelledLongest(s: string, n: nat)
    requires n <= |s| && InLanguage(Labelled, s[..n])
    ensures LabelledLength(s) >= n > 0
  {
    var w := s[..n];
    var l, a, b :| 0 <= l <= a < b < |w| && IsLabel(w[..l]) && Parts(w, l, a, b) && All(Value, w, b, |w|);
    assert w[..l] == s[..l];
    PartsInFront(s, n, l, a, b);
    LabelledAtLeast(s, n, l, a, b);
  }

  lemma PartsInFront(s: string, n: nat, l: nat, a: nat, b: nat)
    requires l <= a < b < n <= |s| && Parts(s[..n], l, a, b) && All(Value, s[..n], b, n)
    ensures Parts(s, l, a, b) && All(Value, s, b, n)
  {
    assert forall k :: 0 <= k < n ==> s[..n][k] == s[k];
  }

  lemma LabelledAtLeast(s: string, n: nat, l: nat, a: nat, b: nat)
    requires l <= a < b < n <= |s| && IsLabel(s[..l]) && Parts(s, l, a, b) && All(Value, s, b, n)
    ensures LabelledLength(s) >= n
  {
    AfterLabelIs(s, l, a, b);
    RunEndIs(Value, s, b, n);
    LabelLetters(s, l);
    assert LabelLength(s) == l;
  }

  /** No word of the language at the head of the text is longer than the length found. */
  lemma MatchLongest(p: Pattern, s: string, n: nat)
    requires n <= |s| && InLanguage(p, s[..n])
    ensures Hits(MatcherOf(p), s) && MatcherOf(p)(s) >= n
  {
    match p
    case Labelled => LabelledLongest(s, n);
    case GitHubToken =>
      assert s[..n][..4] == s[..4];
      RunEndIs(Word, s, 4, n);
    case ApiKey =>
      assert s[..n][..3] == s[..3];
      RunEndIs(KeyChar, s, 3, n);
  }

  // ----- a pass of one pattern creates no match of any

  /** A match begins with a character that can begin a value. */
  ghost predicate BeginsWithValue(m: Matcher) {
    forall t :: Hits(m, t) ==> In(Value, t[0])
  }

  lemma LabelShape(w: string)
    requires IsLabel(w)
    ensures w != [] && In(Value, w[0]) && forall i :: 0 <= i < |w| ==> w[i] != '['
  {
  }

  lemma MatchesBeginWithValue(p: Pattern)
    ensures BeginsWithValue(MatcherOf(p))
  {
    forall t | Hits(MatcherOf(p), t) ensures In(Value, t[0]) {
      match p
      case Labelled => LabelShape(t[..LabelLength(t)]); assert t[..LabelLength(t)][0] == t[0];
      case GitHubToken => assert t[..4][0] == t[0];
      case ApiKey => assert t[..3][0] == t[0];
    }
  }

  /** A labelled match survives replacing what follows position `n`, if `n` can still begin a value. */
  lemma LabelledCarries(u: string, s: string, n: nat, l: nat, a: nat, b: nat)
    requires n < |s| && n < |u| && u[n] == '[' && In(Value, s[n])
    requires forall i :: 0 <= i < n ==> s[i] == u[i]
    requires l <= a < b < |u| && IsLabel(u[..l]) && Parts(u, l, a, b)
    ensures LabelledLength(s) > 0
  {
    LabelShape(u[..l]);
    assert forall i :: 0 <= i < l ==> u[..l][i] == u[i];
    assert l <= n && b <= n;
    assert s[..l] == u[..l];
    assert Parts(s, l, a, b);
    AfterLabelIs(s, l, a, b);
    assert LabelLength(s) == l;
  }

  lemma LabelledHeadIsOld(m: Matcher, s: string)
    requires BeginsWithValue(m) && Hits(MatcherOf(Labelled), Pass(m, REDACTED, s))
    ensures Hits(MatcherOf(Labelled), s)
  {
    var u, n := Pass(m, REDACTED, s), Copied(m, s);
    PassCopiesThenMarks(m, REDACTED, s);
    if n < |s| {
      var a, b := AfterLabelSound(u, LabelLength(u));
      assert forall i :: 0 <= i < n ==> s[i] == s[..n][i] && u[i] == u[..n][i];
      assert s[n..][0] == s[n];
      LabelledCarries(u, s, n, LabelLength(u), a, b);
    }
  }

  lemma PrefixedHeadIsOld(m: Matcher, q: Pattern, s: string)
    requires !q.Labelled? && Hits(MatcherOf(q), Pass(m, REDACTED, s))
    ensures Hits(MatcherOf(q), s)
  {
    var u, n := Pass(m, REDACTED, s), Copied(m, s);
    PassCopiesThenMarks(m, REDACTED, s);
    if n < |s| {
      assert u[n] == '[';
      assert forall i :: 0 <= i < n ==> s[i] == u[..n][i] == u[i];
      if q.GitHubToken? {
        assert forall i :: 0 <= i < 4 ==> u[..4][i] == u[i];
        assert n >= 24;
        assert s[..4] == u[..4];
        RunEndIs(Word, s, 4, 24);
      } else {
        assert forall i :: 0 <= i < 3 ==> u[..3][i] == u[i];
        assert n >= 23;
        assert s[..3] == u[..3];
        RunEndIs(KeyChar, s, 3, 23);
      }
    }
  }

  lemma PatternsKeepHeads(p: Pattern, q: Pattern)
    ensures HeadsAreOld(MatcherOf(p), MatcherOf(q), REDACTED)
  {
    MatchesBeginWithValue(p);
    forall s | !Hits(MatcherOf(p), s) && Hits(MatcherOf(q), Pass(MatcherOf(p), REDACTED, s))
      ensures Hits(MatcherOf(q), s)
    {
      if q.Labelled? { LabelledHeadIsOld(MatcherOf(p), s); } else { PrefixedHeadIsOld(MatcherOf(p), q, s); }
    }
  }

  /** No label, token or key begins inside the mark. */
  lemma MarkIsSafe(q: Pattern)
    ensures MarkSafe(MatcherOf(q), REDACTED)
  {
    forall k, rest | 0 <= k < |REDACTED| ensures !Hits(MatcherOf(q), REDACTED[k..] + rest) {
      var t := REDACTED[k..] + rest;
      if Hits(MatcherOf(q), t) {
        var l := if q.Labelled? then LabelLength(t) else if q.GitHubToken? then 4 else 3;
        MarkStartsNothing(t, k, l);
      }
    }
  }

  /** The characters of the mark, and what that leaves for a word that begins at its `k`-th one. */
  lemma MarkStartsNothing(t: string, k: nat, l: nat)
    requires k < |REDACTED| && |t| >= |REDACTED| - k && t[..|REDACTED| - k] == REDACTED[k..]
    requires l <= |t|
    ensures !IsLabel(t[..l]) && !IsGitHubPrefix(t[..l]) && !IsKeyPrefix(t[..l])
  {
    assert t[0] == t[..|REDACTED| - k][0] == REDACTED[k];
    assert REDACTED[k] in {'[', 'R', 'E', 'D', 'A', 'C', 'T', ']'};
    if l > 1 {
      assert t[..l][0] == t[0] && t[..l][1] == t[1];
      if k < 9 {
        assert t[1] == t[..|REDACTED| - k][1] == REDACTED[k + 1];
      }
    }
  }

  // ----- scrubbing

  const PATTERNS: seq<Pattern> := [Labelled, GitHubToken, ApiKey]

  function ScrubUpTo(s: string, k: nat): string
    requires k <= |PATTERNS|
  {
    if k == 0 then s else Pass(MatcherOf(PATTERNS[k - 1]), REDACTED, ScrubUpTo(s, k - 1))
  }

  function Scrubbed(s: string): string {
    ScrubUpTo(s, |PATTERNS|)
  }

  /** The text holds a word of one of the patterns. */
  ghost predicate HoldsSecret(s: string) {
    exists p, i, j :: 0 <= i <= j <= |s| && InLanguage(p, s[i..j])
  }

  lemma CleanHoldsNoWord(p: Pattern, s: string, i: nat, j: nat)
    requires Clean(MatcherOf(p), s) && i <= j <= |s|
    ensures !InLanguage(p, s[i..j])
  {
    assert s[i..][..j - i] == s[i..j];
    if InLanguage(p, s[i..][..j - i]) { MatchLongest(p, s[i..], j - i); }
  }

  lemma NoWordIsClean(p: Pattern, s: string)
    requires forall i, j :: 0 <= i <= j <= |s| ==> !InLanguage(p, s[i..j])
    ensures Clean(MatcherOf(p), s)
  {
    var m := MatcherOf(p);
    forall i | 0 <= i <= |s| ensures !Hits(m, s[i..]) {
      if Hits(m, s[i..]) {
        var n := m(s[i..]);
        assert s[i..][..n] == s[i..i + n];
        MatchSound(p, s[i..]);
      }
    }
  }

  lemma {:induction false} PassesLeaveClean(s: string, k: nat, q: nat)
    requires q < k <= |PATTERNS|
    ensures Clean(MatcherOf(PATTERNS[q]), ScrubUpTo(s, k))
  {
    var m, mq := MatcherOf(PATTERNS[k - 1]), MatcherOf(PATTERNS[q]);
    if q < k - 1 { PassesLeaveClean(s, k - 1, q); }
    MarkIsSafe(PATTERNS[q]);
    PatternsKeepHeads(PATTERNS[k - 1], PATTERNS[q]);
    PassLeavesClean(m, mq, REDACTED, ScrubUpTo(s, k - 1));
  }

  /** Normal form: no stretch of a scrubbed text is a word of any of the three patterns. */
  lemma NoSecretRemains(s: string)
    ensures !HoldsSecret(Scrubbed(s))
  {
    forall p, i, j | 0 <= i <= j <= |Scrubbed(s)| ensures !InLanguage(p, Scrubbed(s)[i..j]) {
      PassesLeaveClean(s, 3, if p.Labelled? then 0 else if p.GitHubToken? then 1 else 2);
      CleanHoldsNoWord(p, Scrubbed(s), i, j);
    }
  }

  lemma {:induction false} PassesKeepClean(s: string, k: nat)
    requires k <= |PATTERNS| && !HoldsSecret(s)
    ensures ScrubUpTo(s, k) == s
  {
    if k > 0 {
      PassesKeepClean(s, k - 1);
      NoWordIsClean(PATTERNS[k - 1], s);
      CleanPassIsIdentity(MatcherOf(PATTERNS[k - 1]), REDACTED, s);
    }
  }

  /** Scrubbing twice is scrubbing once, and a text is left as it is exactly when it holds no secret. */
  lemma ScrubIsProjection(s: string)
    ensures Scrubbed(Scrubbed(s)) == Scrubbed(s)
    ensures Scrubbed(s) == s <==> !HoldsSecret(s)
  {
    NoSecretRemains(s);
    PassesKeepClean(Scrubbed(s), 3);
    if !HoldsSecret(s) { PassesKeepClean(s, 3); }
  }

  // ----- what scrubbing keeps

  /** No token or key has a bracket in it. */
  lemma PrefixedAvoidsMark(p: Pattern)
    requires !p.Labelled?
    ensures AvoidsMark(MatcherOf(p), REDACTED)
  {
    forall s | Hits(MatcherOf(p), s) ensures '[' !in s[..MatcherOf(p)(s)] {
      var n := MatcherOf(p)(s);
      MatchSound(p, s);
      assert forall k :: 0 <= k < n ==> s[..n][k] == s[k];
      var l := if p.GitHubToken? then 4 else 3;
      assert forall k :: 0 <= k < l ==> s[..n][..l][k] == s[k];
    }
  }

  lemma MatchIsWord(p: Pattern, w: string)
    requires IsMatch(MatcherOf(p), w)
    ensures InLanguage(p, w)
  {
    var s :| Hits(MatcherOf(p), s) && s[..MatcherOf(p)(s)] == w;
    MatchSound(p, s);
  }

  /** The pieces hide only words of the patterns. */
  ghost predicate HidesSecrets(pieces: seq<Piece>) {
    forall q :: q in pieces && q.Hidden? ==> exists p :: InLanguage(p, q.text)
  }

  lemma HidesMoreSecrets(p: Pattern, before: seq<Piece>, after: seq<Piece>)
    requires HidesSecrets(before) && HidesMore(MatcherOf(p), before, after)
    ensures HidesSecrets(after)
  {
    forall q | q in after && q.Hidden? ensures exists r :: InLanguage(r, q.text) {
      if q !in before { MatchIsWord(p, q.text); }
    }
  }

  /**
   What the three passes together keep: the text falls, in order, into kept characters and hidden
   stretches, every hidden stretch is a word of one of the patterns, and the scrubbed text is the kept
   characters in order with one mark for each hidden stretch.
   */
  lemma ScrubKeepsRest(s: string) returns (pieces: seq<Piece>)
    ensures Source(pieces) == s && Shown(pieces, REDACTED) == Scrubbed(s)
    ensures Units(pieces) && HidesSecrets(pieces)
  {
    var first := PassKeepsRest(MatcherOf(Labelled), REDACTED, s);
    SplitsIntoUnits(MatcherOf(Labelled), first);
    HidesMoreSecrets(Labelled, [], first);
    MarkIsSafe(GitHubToken);
    PrefixedAvoidsMark(GitHubToken);
    var second := FurtherPassKeepsRest(MatcherOf(GitHubToken), REDACTED, first);
    HidesMoreSecrets(GitHubToken, first, second);
    MarkIsSafe(ApiKey);
    PrefixedAvoidsMark(ApiKey);
    pieces := FurtherPassKeepsRest(MatcherOf(ApiKey), REDACTED, second);
    HidesMoreSecrets(ApiKey, second, pieces);
    ThreePasses(s);
  }

  lemma ThreePasses(s: string)
    ensures Scrubbed(s) ==
      Pass(MatcherOf(ApiKey), REDACTED, Pass(MatcherOf(GitHubToken), REDACTED, Pass(MatcherOf(Labelled), REDACTED, s)))
  {
    assert ScrubUpTo(s, 0) == s;
    assert ScrubUpTo(s, 1) == Pass(MatcherOf(PATTERNS[0]), REDACTED, s);
    assert ScrubUpTo(s, 2) == Pass(MatcherOf(PATTERNS[1]), REDACTED, ScrubUpTo(s, 1));
  }

  /** `scrub_secrets`: the patterns applied in sequence. */
  method Scrub(text: string) returns (scrubbed: string)
    ensures scrubbed == Scrubbed(text)
    ensures !HoldsSecret(scrubbed)
  {
    scrubbed := text;
    for k := 0 to |PATTERNS|
      invariant scrubbed == ScrubUpTo(text, k)
    {
      scrubbed := Pass(MatcherOf(PATTERNS[k]), REDACTED, scrubbed);
    }
    NoSecretRemains(text);
  }

  // ----- the patterns by their text

  /** Letters, digits and the underscore are the word characters. */
  lemma NamedIsWord(c: char)
    ensures c in UPPER || c in LOWER || c in DIGITS || c == '_' ==> IsWord(c)
  {
    if k :| 0 <= k < |UPPER| && UPPER[k] == c { UpperAt(k); FoldLetters(k); LowerRange(k); }
    if k :| 0 <= k < |LOWER| && LOWER[k] == c { FoldLetters(k); LowerRange(k); }
    if k :| 0 <= k < |DIGITS| && DIGITS[k] == c { DigitRange(k); }
  }

  lemma LowerRange(k: nat)
    requires k < |LOWER|
    ensures 'a' <= LOWER[k] <= 'z'
  {
  }

  lemma DigitRange(k: nat)
    requires k < |DIGITS|
    ensures '0' <= DIGITS[k] <= '9'
  {
  }

  /** And no other character is one. */
  lemma WordIsNamed(c: char)
    requires IsWord(c)
    ensures 'A' <= c <= 'Z' || 'a' <= c <= 'z' || '0' <= c <= '9' || c == '_'
  {
  }

  lemma WholeMatch(p: Pattern, s: string)
    requires InLanguage(p, s)
    ensures Pass(MatcherOf(p), REDACTED, s) == REDACTED
  {
    assert s[..|s|] == s;
    MatchLongest(p, s, |s|);
    assert s[|s|..] == "";
    assert REDACTED + Pass(MatcherOf(p), REDACTED, "") == REDACTED;
  }

  lemma MarkStays(p: Pattern)
    ensures Pass(MatcherOf(p), REDACTED, REDACTED) == REDACTED
  {
    MarkIsSafe(p);
    forall i | 0 <= i <= |REDACTED| ensures !Hits(MatcherOf(p), REDACTED[i..]) {
      assert REDACTED[i..] + "" == REDACTED[i..];
    }
    CleanPassIsIdentity(MatcherOf(p), REDACTED, REDACTED);
  }

  /** Without a separator there is nothing labelled. */
  lemma NothingLabelled(s: string)
    requires ':' !in s && '=' !in s
    ensures Pass(MatcherOf(Labelled), REDACTED, s) == s
  {
    forall i, j | 0 <= i <= j <= |s| ensures !InLanguage(Labelled, s[i..j]) {
      assert forall k :: 0 <= k < j - i ==> s[i..j][k] == s[i + k];
    }
    NoWordIsClean(Labelled, s);
    CleanPassIsIdentity(MatcherOf(Labelled), REDACTED, s);
  }

  /** Without an underscore there is no GitHub token. */
  lemma NoToken(s: string)
    requires '_' !in s
    ensures Pass(MatcherOf(GitHubToken), REDACTED, s) == s
  {
    forall i, j | 0 <= i <= j <= |s| ensures !InLanguage(GitHubToken, s[i..j]) {
      assert forall k :: 0 <= k < j - i ==> s[i..j][k] == s[i + k];
      assert j - i >= 4 ==> s[i..j][..4][3] == s[i..j][3];
    }
    NoWordIsClean(GitHubToken, s);
    CleanPassIsIdentity(MatcherOf(GitHubToken), REDACTED, s);
  }

  /** One of the five token prefixes followed by twenty or more letters, digits or underscores is redacted. */
  lemma TokenRedacted(kind: char, w: string)
    requires kind in {'o', 'p', 'u', 's', 'r'}
    requires |w| >= 20 && forall k :: 0 <= k < |w| ==> w[k] in UPPER || w[k] in LOWER || w[k] in DIGITS || w[k] == '_'
    ensures Scrubbed(['g', 'h', kind, '_'] + w) == "[REDACTED]"
  {
    var s := ['g', 'h', kind, '_'] + w;
    forall k | 0 <= k < |w| ensures IsWord(w[k]) { NamedIsWord(w[k]); }
    assert s[..4] == ['g', 'h', kind, '_'] && IsGitHubPrefix(s[..4]);
    assert forall k :: 4 <= k < |s| ==> s[k] == w[k - 4];
    assert InLanguage(GitHubToken, s);
    forall c | c in s ensures c != ':' && c != '=' {
      if k :| 0 <= k < |w| && w[k] == c { WordIsNamed(c); }
    }
    NothingLabelled(s);
    WholeMatch(GitHubToken, s);
    MarkStays(ApiKey);
    ThreePasses(s);
  }

  /** `sk-` followed by twenty or more letters, digits or hyphens is redacted. */
  lemma KeyRedacted(w: string)
    requires |w| >= 20 && forall k :: 0 <= k < |w| ==> w[k] in UPPER || w[k] in LOWER || w[k] in DIGITS || w[k] == '-'
    ensures Scrubbed("sk-" + w) == "[REDACTED]"
  {
    var s := "sk-" + w;
    forall k | 0 <= k < |w| ensures In(KeyChar, w[k]) && w[k] !in {':', '=', '_'} {
      NamedIsWord(w[k]);
      NotUnderscore(w[k]);
    }
    assert s[..3] == "sk-" && IsKeyPrefix(s[..3]);
    assert forall k :: 3 <= k < |s| ==> s[k] == w[k - 3];
    assert InLanguage(ApiKey, s);
    NothingLabelled(s);
    NoToken(s);
    WholeMatch(ApiKey, s);
    ThreePasses(s);
  }

  lemma NotUnderscore(c: char)
    requires c in UPPER || c in LOWER || c in DIGITS || c == '-'
    ensures c != '_' && c != ':' && c != '='
  {
  }

  /** A label in any case, blanks around a separator, and a value without blanks, commas and semicolons: all redacted.
      */
  lemma LabelRedacted(name: string, separator: char, value: string)
    requires name in ["apikey", "API_KEY", "api-key", "Token", "PASSWORD", "password", "Secret"]
    requires separator == ':' || separator == '='
    requires value != "" && forall k :: 0 <= k < |value| ==> !IsSpace(value[k]) && value[k] != ',' && value[k] != ';'
    ensures Scrubbed(name + [separator] + value) == "[REDACTED]"
    ensures Scrubbed(name + [' ', separator, ' '] + value) == "[REDACTED]"
  {
    LabelsSpelled();
    LabelledValue(name, "", separator, "", value);
    LabelledValue(name, " ", separator, " ", value);
    assert name + "" + [separator] + "" + value == name + [separator] + value;
    assert name + " " + [separator] + " " + value == name + [' ', separator, ' '] + value;
  }

  lemma LabelsSpelled()
    ensures IsLabel("apikey") && IsLabel("API_KEY") && IsLabel("api-key") && IsLabel("Token")
    ensures IsLabel("PASSWORD") && IsLabel("password") && IsLabel("Secret")
  {
    KeysSpelled();
    WordsSpelled();
  }

  lemma KeysSpelled() ensures Spells("apikey", "apikey") && Spells("API_KEY", "api_key") && Spells("api-key",
                    "api-key") {}

  lemma WordsSpelled()
    ensures Spells("Token", "token") && Spells("PASSWORD", "password") && Spells("password", "password")
    ensures Spells("Secret", "secret")
  {
  }

  predicate AllBlank(s: string) {
    forall k :: 0 <= k < |s| ==> s[k] == ' '
  }

  lemma LabelledValue(name: string, gap: string, separator: char, other: string, value: string)
    requires IsLabel(name) && AllBlank(gap) && AllBlank(other) && IsSeparator(separator)
    requires value != "" && forall k :: 0 <= k < |value| ==> In(Value, value[k])
    ensures Scrubbed(name + gap + [separator] + other + value) == REDACTED
  {
    var s := name + gap + [separator] + other + value;
    var l, a, b := |name|, |name| + |gap|, |name| + |gap| + 1 + |other|;
    assert s[..l] == name && s[a] == separator && s[b] == value[0];
    assert forall k :: l <= k < a ==> s[k] == gap[k - l];
    assert forall k :: a < k < b ==> s[k] == other[k - a - 1];
    assert forall k :: b <= k < |s| ==> s[k] == value[k - b];
    assert Parts(s, l, a, b) && All(Value, s, b, |s|);
    assert InLanguage(Labelled, s);
    WholeMatch(Labelled, s);
    MarkStays(GitHubToken);
    MarkStays(ApiKey);
    ThreePasses(s);
  }
}

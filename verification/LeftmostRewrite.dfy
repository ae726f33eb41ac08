/**
 One left-to-right pass that replaces every match of a matcher by a mark, for any matcher: a
 matcher gives the length of its match at the head of a text, 0 for none.
 */
module LeftmostRewrite {

  type Matcher = string -> nat

  predicate Hits(m: Matcher, s: string) {
    0 < m(s) <= |s|
  }

  function Pass(m: Matcher, mark: string, s: string): string
    decreases |s|
  {
    if s == [] then []
    else if Hits(m, s) then mark + Pass(m, mark, s[m(s)..])
    else [s[0]] + Pass(m, mark, s[1..])
  }

  /** No match begins anywhere in the text. */
  ghost predicate Clean(m: Matcher, s: string) {
    forall i :: 0 <= i <= |s| ==> !Hits(m, s[i..])
  }

  /** How many characters a pass copies before its first match. */
  function Copied(m: Matcher, s: string): (n: nat)
    ensures n <= |s|
    ensures n < |s| ==> Hits(m, s[n..])
  {
    if s == [] || Hits(m, s) then 0 else 1 + Copied(m, s[1..])
  }

  lemma {:induction false} PassCopiesThenMarks(m: Matcher, mark: string, s: string)
    requires mark != []
    ensures
      var n, u := Copied(m, s), Pass(m, mark, s);
      n <= |u| && u[..n] == s[..n] && (if n == |s| then u == s else n < |u| && u[n] == mark[0])
    decreases |s|
  {
    if s == [] || Hits(m, s) {
    } else {
      PassCopiesThenMarks(m, mark, s[1..]);
      assert [s[0]] + s[1..] == s;
      var n, u := Copied(m, s[1..]), Pass(m, mark, s[1..]);
      assert ([s[0]] + u)[..n + 1] == [s[0]] + u[..n] && s[..n + 1] == [s[0]] + s[1..][..n];
    }
  }

  /** No match of `q` begins inside a mark, whatever follows. */
  ghost predicate MarkSafe(q: Matcher, mark: string) {
    forall k, rest :: 0 <= k < |mark| ==> !Hits(q, mark[k..] + rest)
  }

  /** A match of `q` at the head of what a pass of `m` produced was already at the head of the text. */
  ghost predicate HeadsAreOld(m: Matcher, q: Matcher, mark: string) {
    forall s :: !Hits(m, s) && Hits(q, Pass(m, mark, s)) ==> Hits(q, s)
  }

  lemma CleanTail(m: Matcher, s: string, k: nat)
    requires k <= |s| && Clean(m, s)
    ensures Clean(m, s[k..])
  {
    forall i | 0 <= i <= |s[k..]| ensures !Hits(m, s[k..][i..]) {
      assert s[k..][i..] == s[k + i..];
    }
  }

  /** A pass of `m` leaves no match of `q` when there was none before, or when `q` is `m` itself. */
  lemma {:induction false} PassLeavesClean(m: Matcher, q: Matcher, mark: string, s: string)
    requires MarkSafe(q, mark) && HeadsAreOld(m, q, mark)
    requires Clean(q, s) || q == m
    ensures Clean(q, Pass(m, mark, s))
    decreases |s|
  {
    var u := Pass(m, mark, s);
    if s == [] {
      forall i | 0 <= i <= |u| ensures !Hits(q, u[i..]) {}
    } else {
      var step := if Hits(m, s) then m(s) else 1;
      var rest := Pass(m, mark, s[step..]);
      if q != m { CleanTail(q, s, step); }
      PassLeavesClean(m, q, mark, s[step..]);
      if Hits(m, s) {
        CleanJoin(q, mark, rest);
      } else {
        assert s[0..] == s && [s[0]][0..] == [s[0]];
        CleanJoin(q, [s[0]], rest);
      }
    }
  }

  lemma CleanJoin(q: Matcher, front: string, rest: string)
    requires Clean(q, rest) && forall i :: 0 <= i < |front| ==> !Hits(q, front[i..] + rest)
    ensures Clean(q, front + rest)
  {
    var u := front + rest;
    forall i | 0 <= i <= |u| ensures !Hits(q, u[i..]) {
      if i >= |front| {
        assert u[i..] == rest[i - |front|..];
      } else {
        assert u[i..] == front[i..] + rest;
      }
    }
  }

  lemma {:induction false} CleanPassIsIdentity(m: Matcher, mark: string, s: string)
    requires Clean(m, s)
    ensures Pass(m, mark, s) == s
    decreases |s|
  {
    if s != [] {
      assert s[0..] == s;
      CleanTail(m, s, 1);
      CleanPassIsIdentity(m, mark, s[1..]);
    }
  }

  // ----- what a pass keeps

  datatype Piece = Kept(text: string) | Hidden(text: string)

  function Source(pieces: seq<Piece>): string {
    if pieces == [] then [] else pieces[0].text + Source(pieces[1..])
  }

  function Shown(pieces: seq<Piece>, mark: string): string {
    if pieces == [] then [] else (if pieces[0].Kept? then pieces[0].text else mark) + Shown(pieces[1..], mark)
  }

  /** The text falls into kept and hidden pieces, in order; each hidden piece is one match, and no match begins in a
      kept one. */
  predicate SplitsAtMatches(m: Matcher, pieces: seq<Piece>) {
    pieces == [] ||
    (&& (if pieces[0].Hidden? then Hits(m, Source(pieces)) && |pieces[0].text| == m(Source(pieces))
         else |pieces[0].text| == 1 && !Hits(m, Source(pieces)))
     && SplitsAtMatches(m, pieces[1..]))
  }

  /** A pass keeps everything outside the matches, in order, and nothing of a match. */
  lemma {:induction false} PassKeepsRest(m: Matcher, mark: string, s: string) returns (pieces: seq<Piece>)
    ensures Source(pieces) == s && Shown(pieces, mark) == Pass(m, mark, s) && SplitsAtMatches(m, pieces)
    decreases |s|
  {
    if s == [] {
      pieces := [];
    } else {
      var n := if Hits(m, s) then m(s) else 1;
      var rest := PassKeepsRest(m, mark, s[n..]);
      var head := if Hits(m, s) then Hidden(s[..n]) else Kept(s[..n]);
      pieces := [head] + rest;
      assert pieces[1..] == rest && s[..n] + s[n..] == s;
    }
  }

  // ----- what a pass over the result of earlier passes keeps of the original

  /** The stretch is what the matcher matches at the head of some text. */
  ghost predicate IsMatch(m: Matcher, w: string) {
    exists s :: Hits(m, s) && s[..m(s)] == w
  }

  /** Kept pieces are single characters. */
  predicate Units(pieces: seq<Piece>) {
    forall k :: 0 <= k < |pieces| && pieces[k].Kept? ==> |pieces[k].text| == 1
  }

  /** No match covers the first character of a mark. */
  ghost predicate AvoidsMark(m: Matcher, mark: string) {
    mark != [] && forall s :: Hits(m, s) ==> mark[0] !in s[..m(s)]
  }

  /** Every hidden piece was hidden before or is a match. */
  ghost predicate HidesMore(m: Matcher, before: seq<Piece>, after: seq<Piece>) {
    forall p :: p in after && p.Hidden? ==> p in before || IsMatch(m, p.text)
  }

  lemma {:induction false} SplitsIntoUnits(m: Matcher, pieces: seq<Piece>)
    requires SplitsAtMatches(m, pieces)
    ensures Units(pieces) && HidesMore(m, [], pieces)
  {
    if pieces != [] {
      SplitsIntoUnits(m, pieces[1..]);
      assert pieces == [pieces[0]] + pieces[1..];
      if pieces[0].Hidden? { assert Source(pieces)[..m(Source(pieces))] == pieces[0].text; }
    }
  }

  lemma {:induction false} PassOverMark(m: Matcher, mark: string, rest: string, k: nat)
    requires MarkSafe(m, mark) && k <= |mark|
    ensures Pass(m, mark, mark[k..] + rest) == mark[k..] + Pass(m, mark, rest)
    decreases |mark| - k
  {
    if k == |mark| {
      assert mark[k..] + rest == rest;
    } else {
      PassOverMark(m, mark, rest, k + 1);
      assert mark[k..] == [mark[k]] + mark[k + 1..];
      ConcatAssociates([mark[k]], mark[k + 1..], rest);
      PassCopies(m, mark, mark[k], mark[k + 1..] + rest);
      ConcatAssociates([mark[k]], mark[k + 1..], Pass(m, mark, rest));
    }
  }

  lemma PassCopies(m: Matcher, mark: string, c: char, rest: string)
    requires !Hits(m, [c] + rest)
    ensures Pass(m, mark, [c] + rest) == [c] + Pass(m, mark, rest)
  {
    assert ([c] + rest)[1..] == rest;
  }

  lemma {:induction false} SourceSplits(a: seq<Piece>, b: seq<Piece>)
    ensures Source(a + b) == Source(a) + Source(b)
  {
    if a == [] {
      assert a + b == b;
    } else {
      SourceSplits(a[1..], b);
      assert (a + b)[1..] == a[1..] + b;
      ConcatAssociates(a[0].text, Source(a[1..]), Source(b));
    }
  }

  /** A stretch at the head of the shown text without the first character of a mark comes from kept characters only. */
  lemma {:induction false} HeadIsKept(pieces: seq<Piece>, mark: string, n: nat)
    requires Units(pieces) && mark != [] && n <= |Shown(pieces, mark)| && mark[0] !in Shown(pieces, mark)[..n]
    ensures n <= |pieces| && Source(pieces[..n]) == Shown(pieces, mark)[..n] == Shown(pieces[..n], mark)
    ensures Shown(pieces[n..], mark) == Shown(pieces, mark)[n..]
  {
    var t := Shown(pieces, mark);
    if n > 0 {
      var rest := Shown(pieces[1..], mark);
      assert t[0] in t[..n];
      assert pieces[0].Kept? && t == pieces[0].text + rest && t[1..] == rest;
      assert rest[..n - 1] == t[..n][1..];
      HeadIsKept(pieces[1..], mark, n - 1);
      assert pieces[..n][1..] == pieces[1..][..n - 1] && pieces[n..] == pieces[1..][n - 1..];
      assert t[..n] == [t[0]] + rest[..n - 1];
    }
  }

  lemma ConcatAssociates(a: string, b: string, c: string)
    ensures a + (b + c) == a + b + c
  {
  }

  /** One more piece in front. */
  lemma InFront(p: Piece, more: seq<Piece>, mark: string)
    ensures Source([p] + more) == p.text + Source(more)
    ensures Shown([p] + more, mark) == (if p.Kept? then p.text else mark) + Shown(more, mark)
  {
    assert ([p] + more)[1..] == more;
  }

  /** A new match in front of what a pass over the rest gives. */
  lemma NewMatchInFront(m: Matcher, mark: string, before: seq<Piece>, n: nat, more: seq<Piece>)
    requires Units(before) && AvoidsMark(m, mark)
    requires Hits(m, Shown(before, mark)) && n == m(Shown(before, mark)) && n <= |before|
    requires Source(more) == Source(before[n..]) && Shown(more, mark) == Pass(m, mark, Shown(before[n..], mark))
    ensures
      var after := [Hidden(Shown(before, mark)[..n])] + more;
      Source(after) == Source(before) && Shown(after, mark) == Pass(m, mark, Shown(before, mark))
  {
    HeadIsKept(before, mark, n);
    InFront(Hidden(Shown(before, mark)[..n]), more, mark);
    SourceSplits(before[..n], before[n..]);
    assert before == before[..n] + before[n..];
  }

  /** The same piece in front of what a pass over the rest gives, where no match begins. */
  lemma OldPieceInFront(m: Matcher, mark: string, before: seq<Piece>, more: seq<Piece>)
    requires Units(before) && before != [] && MarkSafe(m, mark)
    requires before[0].Kept? ==> !Hits(m, Shown(before, mark))
    requires Source(more) == Source(before[1..]) && Shown(more, mark) == Pass(m, mark, Shown(before[1..], mark))
    ensures
      var after := [before[0]] + more;
      Source(after) == Source(before) && Shown(after, mark) == Pass(m, mark, Shown(before, mark))
  {
    InFront(before[0], more, mark);
    var rest := Shown(before[1..], mark);
    if before[0].Hidden? {
      PassOverMark(m, mark, rest, 0);
      assert mark[0..] == mark;
    } else {
      assert Shown(before, mark)[1..] == rest;
    }
  }

  lemma MoreIsHidden(m: Matcher, before: seq<Piece>, rest: seq<Piece>, p: Piece, more: seq<Piece>)
    requires (forall q :: q in rest ==> q in before) && HidesMore(m, rest, more) && Units(more)
    requires if p.Kept? then |p.text| == 1 else p in before || IsMatch(m, p.text)
    ensures HidesMore(m, before, [p] + more) && Units([p] + more)
  {
  }

  /**
   A further pass, over what earlier passes show: the original text falls into the pieces that were
   hidden before, new matches, and kept characters, and the result shows them in order.
   */
  lemma {:induction false} FurtherPassKeepsRest(m: Matcher, mark: string, before: seq<Piece>)
    returns (after: seq<Piece>)
    requires Units(before) && MarkSafe(m, mark) && AvoidsMark(m, mark)
    ensures Source(after) == Source(before) && Shown(after, mark) == Pass(m, mark, Shown(before, mark))
    ensures Units(after) && HidesMore(m, before, after)
    decreases |before|
  {
    if before == [] {
      return [];
    }
    var t := Shown(before, mark);
    if before[0].Kept? && Hits(m, t) {
      var n := m(t);
      HeadIsKept(before, mark, n);
      var more := FurtherPassKeepsRest(m, mark, before[n..]);
      NewMatchInFront(m, mark, before, n, more);
      assert IsMatch(m, t[..n]);
      MoreIsHidden(m, before, before[n..], Hidden(t[..n]), more);
      after := [Hidden(t[..n])] + more;
    } else {
      var more := FurtherPassKeepsRest(m, mark, before[1..]);
      OldPieceInFront(m, mark, before, more);
      MoreIsHidden(m, before, before[1..], before[0], more);
      after := [before[0]] + more;
    }
  }
}

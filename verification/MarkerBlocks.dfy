/**
 Marker blocks in a shared text file: the splice that replaces a block between its two markers or
 appends it, and what any sequence of splices leaves behind.
 */
module MarkerBlocks {
  import opened AsciiText
  import opened Options

  // ----- searching

  predicate Occurs(text: string, w: string, i: int) {
    0 <= i <= |text| - |w| && text[i..i + |w|] == w
  }

  /** The first occurrence at or after a position. */
  function Find(text: string, w: string, from: nat): (r: Option<nat>)
    ensures r.Some? ==>
              && from <= r.value && Occurs(text, w, r.value)
              && forall j :: from <= j < r.value ==> !Occurs(text, w, j)
    ensures r.None? ==> forall j :: from <= j ==> !Occurs(text, w, j)
    decreases |text| - from
  {
    if |text| - |w| < from then None
    else if Occurs(text, w, from) then Some(from)
    else Find(text, w, from + 1)
  }

  lemma FoundAt(text: string, w: string, from: nat, i: nat)
    requires from <= i && Occurs(text, w, i) && forall j :: from <= j < i ==> !Occurs(text, w, j)
    ensures Find(text, w, from) == Some(i)
  {
  }

  ghost predicate Absent(text: string, w: string) {
    forall i :: !Occurs(text, w, i)
  }

  // ----- markers and blocks

  /** A block: its first line is `begin`, its last line is `end`, and no line between has a `#`. */
  datatype Target = Target(begin: string, inner: string, end: string)

  /** A comment line without a further `#`, not ending in a space. */
  predicate IsMark(w: string) {
    && |w| > 0 && w[0] == '#' && !IsSpace(w[|w| - 1])
    && forall k :: 0 < k < |w| ==> w[k] != '#' && w[k] != '\n'
  }

  function Block(t: Target): string {
    t.begin + "\n" + t.inner + "\n" + t.end
  }

  predicate IsTarget(t: Target) {
    && IsMark(t.begin) && IsMark(t.end) && !(t.begin <= t.end) && !(t.end <= t.begin)
    && '#' !in t.inner
  }

  predicate Unrelated(v: string, w: string) {
    !(v <= w) && !(w <= v)
  }

  /** No marker of one target begins like a marker of the other. */
  predicate Apart(s: Target, t: Target) {
    Unrelated(s.begin, t.begin) && Unrelated(s.begin, t.end) && Unrelated(s.end, t.begin) && Unrelated(s.end, t.end)
  }

  /** The splice.  It fails on an incomplete pair, and where no end marker follows the begin marker. */
  function Splice(t: Target, text: string): Option<string> {
    var b, e := Find(text, t.begin, 0), Find(text, t.end, 0);
    if b.Some? && e.Some? then
      var f := Find(text, t.end, b.value);
      if f.None? then None else Some(text[..b.value] + Block(t) + text[f.value + |t.end|..])
    else if b.Some? || e.Some? then None
    else Some(TrimEnd(text) + "\n\n" + Block(t) + "\n")
  }

  lemma AbsentIffNotFound(text: string, w: string)
    ensures Find(text, w, 0).None? <==> Absent(text, w)
  {
  }

  /** It fails exactly when one marker is there without the other, or no end marker stands at or behind the first begin
      marker. */
  lemma SpliceFailsIff(t: Target, text: string)
    ensures Splice(t, text).None? <==>
            || (Absent(text, t.begin) != Absent(text, t.end))
            || (exists b: nat ::
                  && Occurs(text, t.begin, b) && (forall i :: 0 <= i < b ==> !Occurs(text, t.begin, i))
                  && !Absent(text, t.end) && forall j :: b <= j ==> !Occurs(text, t.end, j))
  {
    AbsentIffNotFound(text, t.begin);
    AbsentIffNotFound(text, t.end);
    var found := Find(text, t.begin, 0);
    if found.Some? {
      forall b: nat | Occurs(text, t.begin, b) && forall i :: 0 <= i < b ==> !Occurs(text, t.begin, i)
        ensures b == found.value
      {
        FoundAt(text, t.begin, 0, b);
      }
    }
  }

  /** Otherwise everything from the first begin marker to the end of the next end marker is replaced by the block, and
      the text around it is kept. */
  lemma SpliceReplaces(t: Target, before: string, old_: string, after: string, text: string)
    requires text == before + old_ + after && t.begin <= old_
    requires |t.end| <= |old_| && old_[|old_| - |t.end|..] == t.end
    requires forall i :: 0 <= i < |before| ==> !Occurs(text, t.begin, i)
    requires forall j :: |before| <= j < |before| + |old_| - |t.end| ==> !Occurs(text, t.end, j)
    ensures Splice(t, text) == Some(before + Block(t) + after)
  {
    var b, f := |before|, |before| + |old_| - |t.end|;
    assert text[b..b + |t.begin|] == old_[..|t.begin|];
    FoundAt(text, t.begin, 0, b);
    assert text[f..f + |t.end|] == old_[|old_| - |t.end|..];
    FoundAt(text, t.end, b, f);
    AbsentIffNotFound(text, t.end);
    assert Occurs(text, t.end, f);
    assert text[..b] == before && text[f + |t.end|..] == after;
  }

  // ----- occurrences and seams

  lemma OccursAt(text: string, w: string, i: nat, k: nat)
    requires Occurs(text, w, i) && k < |w|
    ensures text[i + k] == w[k]
  {
    assert text[i..i + |w|][k] == text[i + k];
  }

  lemma OccursInPrefix(a: string, b: string, w: string, i: nat)
    requires i + |w| <= |a|
    ensures Occurs(a + b, w, i) <==> Occurs(a, w, i)
  {
    assert (a + b)[i..i + |w|] == a[i..i + |w|];
  }

  lemma OccursInSuffix(a: string, b: string, w: string, i: nat)
    requires |a| <= i
    ensures Occurs(a + b, w, i) <==> Occurs(b, w, i - |a|)
  {
    if i + |w| <= |a + b| {
      assert (a + b)[i..i + |w|] == b[i - |a|..i - |a| + |w|];
    }
  }

  /** No marker crosses a line break or reaches into a following `#`. */
  predicate Stops(b: string) {
    b != [] && (b[0] == '\n' || b[0] == '#')
  }

  lemma NoCrossing(a: string, b: string, w: string, i: nat)
    requires IsMark(w) && (b == [] || Stops(b)) && Occurs(a + b, w, i) && i < |a|
    ensures Occurs(a, w, i)
  {
    if i + |w| > |a| {
      OccursAt(a + b, w, i, |a| - i);
    } else {
      OccursInPrefix(a, b, w, i);
    }
  }

  /** Absence is kept by joining at a seam. */
  lemma AbsentJoin(a: string, b: string, w: string)
    requires IsMark(w) && Absent(a, w) && Absent(b, w) && (b == [] || Stops(b))
    ensures Absent(a + b, w)
  {
    forall i ensures !Occurs(a + b, w, i) {
      if Occurs(a + b, w, i) {
        if i < |a| { NoCrossing(a, b, w, i); } else { OccursInSuffix(a, b, w, i); }
      }
    }
  }

  lemma AbsentPrefix(a: string, text: string, w: string)
    requires Absent(text, w) && a <= text
    ensures Absent(a, w)
  {
    assert text == a + text[|a|..];
    forall i ensures !Occurs(a, w, i) {
      if Occurs(a, w, i) { OccursInPrefix(a, text[|a|..], w, i); }
    }
  }

  lemma AbsentWithoutHash(a: string, w: string)
    requires IsMark(w) && '#' !in a
    ensures Absent(a, w)
  {
    forall i ensures !Occurs(a, w, i) {
      if Occurs(a, w, i) { OccursAt(a, w, i, 0); }
    }
  }

  lemma AbsentInMark(v: string, w: string)
    requires IsMark(v) && IsMark(w) && !(w <= v)
    ensures Absent(v, w)
  {
    forall i ensures !Occurs(v, w, i) {
      if Occurs(v, w, i) { OccursAt(v, w, i, 0); }
    }
  }

  /** The middle of a block, from its first line break to before its last line. */
  function Middle(t: Target): string {
    "\n" + t.inner + "\n"
  }

  lemma BlockParts(t: Target)
    ensures Block(t) == t.begin + (Middle(t) + t.end) && Block(t) == t.begin + Middle(t) + t.end
  {
  }

  /** A marker unrelated to the block's own is not in the block. */
  lemma AbsentInBlock(t: Target, w: string)
    requires IsTarget(t) && IsMark(w) && !(w <= t.begin) && !(w <= t.end)
    ensures Absent(Block(t), w)
  {
    AbsentInMark(t.begin, w);
    AbsentInMark(t.end, w);
    AbsentWithoutHash(Middle(t), w);
    AbsentJoin(t.begin, Middle(t), w);
    AbsentJoin(t.begin + Middle(t), t.end, w);
    BlockParts(t);
  }

  // ----- where the markers are found

  /** A search from the end of `p` passes over text without the marker and stops where it starts. */
  lemma MarkFound(p: string, head: string, rest: string, w: string)
    requires IsMark(w) && Absent(head, w) && w <= rest
    ensures Find(p + (head + rest), w, |p|) == Some(|p| + |head|)
  {
    var text := p + (head + rest);
    var last := |p| + |head|;
    assert Stops(rest);
    forall j | |p| <= j < last ensures !Occurs(text, w, j) {
      OccursInSuffix(p, head + rest, w, j);
      if Occurs(head + rest, w, j - |p|) { NoCrossing(head, rest, w, j - |p|); }
    }
    OccursThere(p, head, rest, w);
    FoundAt(text, w, |p|, last);
  }

  lemma OccursThere(p: string, head: string, rest: string, w: string)
    requires w <= rest
    ensures Occurs(p + (head + rest), w, |p| + |head|)
  {
    OccursInSuffix(p, head + rest, w, |p| + |head|);
    OccursInSuffix(head, rest, w, |head|);
    assert rest[0..|w|] == w;
  }

  lemma BeginFound(t: Target, p: string, q: string)
    requires IsTarget(t) && Absent(p, t.begin)
    ensures Find(p + (Block(t) + q), t.begin, 0) == Some(|p|)
  {
    BlockParts(t);
    MarkFound("", p, Block(t) + q, t.begin);
    assert "" + (p + (Block(t) + q)) == p + (Block(t) + q);
  }

  lemma HeadHasNoEnd(t: Target)
    requires IsTarget(t)
    ensures Absent(t.begin + Middle(t), t.end)
  {
    AbsentInMark(t.begin, t.end);
    AbsentWithoutHash(Middle(t), t.end);
    AbsentJoin(t.begin, Middle(t), t.end);
  }

  lemma BlockBefore(t: Target, p: string, q: string)
    ensures p + (Block(t) + q) == p + ((t.begin + Middle(t)) + (t.end + q))
    ensures |Block(t)| == |t.begin + Middle(t)| + |t.end|
  {
    BlockParts(t);
    assert Block(t) + q == (t.begin + Middle(t)) + (t.end + q);
  }

  lemma MarkFoundIn(text: string, p: string, head: string, w: string, q: string)
    requires IsMark(w) && Absent(head, w) && text == p + (head + (w + q))
    ensures Find(text, w, |p|) == Some(|p| + |head|)
  {
    MarkFound(p, head, w + q, w);
  }

  lemma EndFound(t: Target, text: string, p: string, q: string)
    requires IsTarget(t) && text == p + (Block(t) + q)
    ensures Find(text, t.end, |p|).Some? && Find(text, t.end, |p|).value + |t.end| == |p| + |Block(t)|
  {
    HeadHasNoEnd(t);
    BlockBefore(t, p, q);
    MarkFoundIn(text, p, t.begin + Middle(t), t.end, q);
  }

  /** Where the text already has the block and no earlier begin marker, the splice changes nothing. */
  lemma SpliceAgain(t: Target, p: string, q: string)
    requires IsTarget(t) && Absent(p, t.begin)
    ensures Splice(t, p + (Block(t) + q)) == Some(p + (Block(t) + q))
  {
    var text := p + (Block(t) + q);
    BeginFound(t, p, q);
    EndFound(t, text, p, q);
    assert Occurs(text, t.end, Find(text, t.end, |p|).value);
    assert Find(text, t.end, 0).Some?;
    CutAround(p, Block(t), q);
  }

  lemma CutAround(p: string, b: string, q: string)
    ensures var text := p + (b + q); text[..|p|] == p && text[|p| + |b|..] == q && p + b + q == text
  {
  }

  /** Before its first occurrence, a marker is absent. */
  lemma AbsentBefore(text: string, w: string, i: nat)
    requires IsMark(w) && i <= |text| && forall j :: 0 <= j < i ==> !Occurs(text, w, j)
    ensures Absent(text[..i], w)
  {
    assert text == text[..i] + text[i..];
    forall j ensures !Occurs(text[..i], w, j) {
      if Occurs(text[..i], w, j) { OccursInPrefix(text[..i], text[i..], w, j); }
    }
  }

  /** Redeploying is the identity, on every text on which the first deployment succeeded. */
  lemma SpliceIdempotent(t: Target, text: string)
    requires IsTarget(t) && Splice(t, text).Some?
    ensures Splice(t, Splice(t, text).value) == Splice(t, text)
  {
    var b, e := Find(text, t.begin, 0), Find(text, t.end, 0);
    var result := Splice(t, text).value;
    if b.Some? {
      var p, q := text[..b.value], text[Find(text, t.end, b.value).value + |t.end|..];
      AbsentBefore(text, t.begin, b.value);
      assert result == p + (Block(t) + q);
      SpliceAgain(t, p, q);
    } else {
      var p := TrimEnd(text) + "\n\n";
      TrimEndIs(text);
      AbsentPrefix(TrimEnd(text), text, t.begin);
      AbsentWithoutHash("\n\n", t.begin);
      AbsentJoin(TrimEnd(text), "\n\n", t.begin);
      assert result == p + (Block(t) + "\n");
      SpliceAgain(t, p, "\n");
    }
  }

  // ----- sequences of deployments

  /** The kept text followed by the blocks in order, each after an empty line. */
  function Render(kept: string, order: seq<Target>): string {
    if order == [] then kept else Render(kept, order[..|order| - 1]) + ("\n\n" + Block(order[|order| - 1]))
  }

  /** Neither marker of the target is in the text. */
  ghost predicate Free(text: string, t: Target) {
    Absent(text, t.begin) && Absent(text, t.end)
  }

  ghost predicate Family(ts: set<Target>) {
    (forall t :: t in ts ==> IsTarget(t)) && (forall s, t :: s in ts && t in ts && s != t ==> Apart(s, t))
  }

  predicate Once(order: seq<Target>) {
    forall i, j :: 0 <= i < j < |order| ==> order[i] != order[j]
  }

  lemma FreeJoin(a: string, b: string, t: Target)
    requires IsTarget(t) && Free(a, t) && Free(b, t) && (b == [] || Stops(b))
    ensures Free(a + b, t)
  {
    AbsentJoin(a, b, t.begin);
    AbsentJoin(a, b, t.end);
  }

  lemma BlankIsFree(t: Target)
    requires IsTarget(t)
    ensures Free("", t) && Free("\n", t) && Free("\n\n", t)
  {
    AbsentWithoutHash("", t.begin);
    AbsentWithoutHash("", t.end);
    AbsentWithoutHash("\n", t.begin);
    AbsentWithoutHash("\n", t.end);
    AbsentWithoutHash("\n\n", t.begin);
    AbsentWithoutHash("\n\n", t.end);
  }

  lemma BlockIsFree(s: Target, t: Target)
    requires IsTarget(s) && IsTarget(t) && Apart(s, t)
    ensures Free("\n\n" + Block(s), t)
  {
    AbsentInBlock(s, t.begin);
    AbsentInBlock(s, t.end);
    BlankIsFree(t);
    BlockParts(s);
    FreeJoin("\n\n", Block(s), t);
  }

  /** What is rendered has no marker of a target that was not deployed. */
  lemma {:induction false} RenderIsFree(kept: string, order: seq<Target>, ts: set<Target>, t: Target)
    requires Family(ts) && (forall k :: 0 <= k < |order| ==> order[k] in ts) && t in ts && t !in order && Free(kept, t)
    ensures Free(Render(kept, order), t)
  {
    if order != [] {
      var front, last := order[..|order| - 1], order[|order| - 1];
      assert last in order;
      RenderIsFree(kept, front, ts, t);
      BlockIsFree(last, t);
      FreeJoin(Render(kept, front), "\n\n" + Block(last), t);
    }
  }

  lemma {:induction false} RenderSplits(kept: string, a: seq<Target>, b: seq<Target>)
    ensures Render(kept, a + b) == Render(Render(kept, a), b)
  {
    if b == [] {
      assert a + b == a;
    } else {
      RenderSplits(kept, a, b[..|b| - 1]);
      assert (a + b)[..|a + b| - 1] == a + b[..|b| - 1];
    }
  }

  lemma {:induction false} RenderExtends(kept: string, order: seq<Target>)
    ensures kept <= Render(kept, order)
  {
    if order != [] { RenderExtends(kept, order[..|order| - 1]); }
  }

  /** Deploying a target that is already there changes nothing. */
  lemma SpliceKnown(kept: string, order: seq<Target>, ts: set<Target>, k: nat)
    requires Family(ts) && (forall j :: 0 <= j < |order| ==> order[j] in ts) && Once(order) && k < |order|
    requires Free(kept, order[k])
    ensures Splice(order[k], Render(kept, order) + "\n") == Some(Render(kept, order) + "\n")
  {
    var t, front := order[k], order[..k];
    assert t !in front;
    RenderIsFree(kept, front, ts, t);
    var p := Render(kept, front) + "\n\n";
    BlankIsFree(t);
    FreeJoin(Render(kept, front), "\n\n", t);
    var q := KnownTail(kept, order, k);
    SpliceAgain(t, p, q);
  }

  lemma {:induction false} RenderTail(kept: string, order: seq<Target>)
    ensures Render(kept, order) == kept + Render("", order)
    ensures Render("", order) == "" || Stops(Render("", order))
  {
    if order != [] {
      var front, last := order[..|order| - 1], order[|order| - 1];
      RenderTail(kept, front);
      assert kept + Render("", front) + ("\n\n" + Block(last)) == kept + (Render("", front) + ("\n\n" + Block(last)));
    }
  }

  lemma KnownTail(kept: string, order: seq<Target>, k: nat) returns (q: string)
    requires k < |order|
    ensures Render(kept, order) + "\n" == (Render(kept, order[..k]) + "\n\n") + (Block(order[k]) + q)
    ensures q == Render("", order[k + 1..]) + "\n"
  {
    var upto, later := order[..k + 1], order[k + 1..];
    assert upto[..k] == order[..k];
    assert order == upto + later;
    RenderSplits(kept, upto, later);
    RenderTail(Render(kept, upto), later);
    q := Render("", later) + "\n";
  }

  /** Deploying a new target appends its block and leaves everything before it. */
  lemma SpliceNew(text: string, t: Target)
    requires IsTarget(t) && Free(text, t)
    ensures Splice(t, text) == Some(Render(TrimEnd(text), [t]) + "\n")
  {
    assert [t][..0] == [];
    var kept := TrimEnd(text);
    assert Render(kept, [t]) == kept + ("\n\n" + Block(t));
    assert kept + ("\n\n" + Block(t)) + "\n" == kept + "\n\n" + Block(t) + "\n";
  }

  lemma TrimRendered(kept: string, order: seq<Target>)
    requires order != [] && forall k :: 0 <= k < |order| ==> IsTarget(order[k])
    ensures TrimEnd(Render(kept, order) + "\n") == Render(kept, order)
  {
    var r, t := Render(kept, order), order[|order| - 1];
    BlockParts(t);
    assert r[|r| - 1] == t.end[|t.end| - 1];
    assert (r + "\n")[..|r|] == r;
  }

  /** The targets in the order of their first deployment. */
  function Firsts(ts: seq<Target>): seq<Target> {
    if ts == [] then [] else
      var before, t := Firsts(ts[..|ts| - 1]), ts[|ts| - 1];
      if t in before then before else before + [t]
  }

  lemma {:induction false} FirstsAre(ts: seq<Target>)
    ensures Once(Firsts(ts)) && forall t :: t in Firsts(ts) <==> t in ts
  {
    if ts != [] {
      FirstsAre(ts[..|ts| - 1]);
      assert ts == ts[..|ts| - 1] + [ts[|ts| - 1]];
    }
  }

  /** What a sequence of deployments leaves: untouched text, or the kept text and one block per deployed target. */
  function Deployed(base: string, ts: seq<Target>): string {
    if ts == [] then base else Render(TrimEnd(base), Firsts(ts)) + "\n"
  }

  /** One more deployment after any sequence of them: it always succeeds, and by `Deployed` it adds one block at
      most. */
  lemma DeployOneMore(base: string, ts: seq<Target>, t: Target, family: set<Target>)
    requires Family(family) && (forall s :: s in ts ==> s in family) && t in family && Free(base, t)
    requires forall s :: s in ts ==> Free(base, s)
    ensures Splice(t, Deployed(base, ts)) == Some(Deployed(base, ts + [t]))
  {
    var order, kept := Firsts(ts), TrimEnd(base);
    FirstsAre(ts);
    assert (ts + [t])[..|ts|] == ts;
    TrimEndIs(base);
    AbsentPrefix(kept, base, t.begin);
    AbsentPrefix(kept, base, t.end);
    if ts == [] {
      SpliceNew(base, t);
    } else {
      assert ts[0] in order;
      forall k | 0 <= k < |order| ensures order[k] in family { assert order[k] in order; }
      if t in order {
        var k :| 0 <= k < |order| && order[k] == t;
        SpliceKnown(kept, order, family, k);
      } else {
        RenderedNew(kept, order, family, t);
      }
    }
  }

  lemma RenderedNew(kept: string, order: seq<Target>, ts: set<Target>, t: Target)
    requires Family(ts) && order != [] && (forall k :: 0 <= k < |order| ==> order[k] in ts) && t in ts && t !in order
    requires Free(kept, t)
    ensures Splice(t, Render(kept, order) + "\n") == Some(Render(kept, order + [t]) + "\n")
  {
    RenderIsFree(kept, order, ts, t);
    BlankIsFree(t);
    FreeJoin(Render(kept, order), "\n", t);
    SpliceNew(Render(kept, order) + "\n", t);
    TrimRendered(kept, order);
    RenderSplits(kept, order, [t]);
  }

  // ----- one block per marker

  ghost predicate OccursOnce(text: string, w: string) {
    exists i :: Occurs(text, w, i) && forall j :: Occurs(text, w, j) ==> j == i
  }

  lemma OnceJoin(a: string, w: string, b: string)
    requires IsMark(w) && Absent(a, w) && Absent(b, w) && (b == [] || Stops(b))
    ensures OccursOnce(a + (w + b), w)
  {
    var text := a + (w + b);
    OccursThere("", a, w + b, w);
    assert "" + text == text;
    forall j | Occurs(text, w, j) ensures j == |a| {
      if j < |a| { NoCrossing(a, w + b, w, j); } else { OnlyAtStart(a, w, b, j); }
    }
  }

  lemma OnlyAtStart(a: string, w: string, b: string, j: nat)
    requires IsMark(w) && Absent(b, w) && |a| <= j && Occurs(a + (w + b), w, j)
    ensures j == |a|
  {
    OccursInSuffix(a, w + b, w, j);
    var i := j - |a|;
    if i < |w| {
      OccursAt(w + b, w, i, 0);
    } else {
      OccursInSuffix(w, b, w, i);
    }
  }

  /** The rendered text around one block: a part before it and a part after it, both free of its markers. */
  lemma AroundBlock(kept: string, order: seq<Target>, ts: set<Target>, k: nat) returns (p: string, q: string)
    requires Family(ts) && (forall j :: 0 <= j < |order| ==> order[j] in ts) && Once(order) && k < |order|
    requires Free(kept, order[k])
    ensures Render(kept, order) + "\n" == p + (Block(order[k]) + q)
    ensures Free(p, order[k]) && Free(q, order[k]) && Stops(q)
  {
    var t, front, later := order[k], order[..k], order[k + 1..];
    assert t !in front && t !in later;
    RenderIsFree(kept, front, ts, t);
    BlankIsFree(t);
    FreeJoin(Render(kept, front), "\n\n", t);
    p := Render(kept, front) + "\n\n";
    q := KnownTail(kept, order, k);
    TailIsFree(later, ts, t);
  }

  lemma TailIsFree(later: seq<Target>, ts: set<Target>, t: Target)
    requires Family(ts) && (forall j :: 0 <= j < |later| ==> later[j] in ts) && t in ts && t !in later
    ensures Free(Render("", later) + "\n", t) && Stops(Render("", later) + "\n")
  {
    RenderTail("", later);
    BlankIsFree(t);
    RenderIsFree("", later, ts, t);
    FreeJoin(Render("", later), "\n", t);
  }

  lemma BlockOnce(t: Target, p: string, q: string)
    requires IsTarget(t) && Free(p, t) && Free(q, t) && Stops(q)
    ensures OccursOnce(p + (Block(t) + q), t.begin) && OccursOnce(p + (Block(t) + q), t.end)
  {
    BeginOnce(t, p, q);
    EndOnce(t, p, q);
  }

  lemma BeginOnce(t: Target, p: string, q: string)
    requires IsTarget(t) && Absent(p, t.begin) && Absent(q, t.begin) && Stops(q)
    ensures OccursOnce(p + (Block(t) + q), t.begin)
  {
    AbsentWithoutHash(Middle(t), t.begin);
    AbsentInMark(t.end, t.begin);
    AbsentJoin(Middle(t), t.end, t.begin);
    AbsentJoin(Middle(t) + t.end, q, t.begin);
    OnceJoin(p, t.begin, Middle(t) + t.end + q);
    BlockParts(t);
    assert p + (Block(t) + q) == p + (t.begin + (Middle(t) + t.end + q));
  }

  lemma EndOnce(t: Target, p: string, q: string)
    requires IsTarget(t) && Absent(p, t.end) && Absent(q, t.end) && Stops(q)
    ensures OccursOnce(p + (Block(t) + q), t.end)
  {
    HeadHasNoEnd(t);
    var head := t.begin + Middle(t);
    AbsentJoin(p, head, t.end);
    OnceJoin(p + head, t.end, q);
    BlockBefore(t, p, q);
    assert p + (head + (t.end + q)) == (p + head) + (t.end + q);
  }

  /** The block of a target is in the text, and each of its markers is there just once. */
  ghost predicate HasBlockOnce(text: string, t: Target) {
    OccursOnce(text, t.begin) && OccursOnce(text, t.end) && exists i :: Occurs(text, Block(t), i)
  }

  lemma RenderedOnce(kept: string, order: seq<Target>, ts: set<Target>, k: nat)
    requires Family(ts) && (forall j :: 0 <= j < |order| ==> order[j] in ts) && Once(order) && k < |order|
    requires Free(kept, order[k])
    ensures HasBlockOnce(Render(kept, order) + "\n", order[k])
  {
    var p, q := AroundBlock(kept, order, ts, k);
    BlockOnce(order[k], p, q);
    OccursThere("", p, Block(order[k]) + q, Block(order[k]));
    assert "" + (p + (Block(order[k]) + q)) == p + (Block(order[k]) + q);
  }

  /** After any sequence of deployments every deployed target has its block once, and every other target of the family
      has no marker. */
  lemma OneBlockEach(base: string, ts: seq<Target>, family: set<Target>, t: Target)
    requires Family(family) && (forall s :: s in ts ==> s in family) && t in family && Free(base, t)
    ensures if t in ts then HasBlockOnce(Deployed(base, ts), t) else Free(Deployed(base, ts), t)
  {
    var order, kept := Firsts(ts), TrimEnd(base);
    FirstsAre(ts);
    forall k | 0 <= k < |order| ensures order[k] in family { assert order[k] in order; }
    TrimEndIs(base);
    AbsentPrefix(kept, base, t.begin);
    AbsentPrefix(kept, base, t.end);
    if t in ts {
      var k :| 0 <= k < |order| && order[k] == t;
      RenderedOnce(kept, order, family, k);
    } else if ts != [] {
      RenderIsFree(kept, order, family, t);
      BlankIsFree(t);
      FreeJoin(Render(kept, order), "\n", t);
    }
  }
}

/** The spelling rule of architecture names: `&` is `and`, white space and letter case do not count. */
module ArchitectureNames {
  import opened AsciiText

  function SpellAnd(s: string): string {
    if s == [] then [] else (if s[0] == '&' then "and" else [s[0]]) + SpellAnd(s[1..])
  }

  function SkipSpace(s: string): (r: string)
    ensures |r| <= |s| && (r != [] ==> !IsSpace(r[0]))
    ensures s != [] && IsSpace(s[0]) ==> |r| < |s|
    ensures forall c :: c in r ==> c in s
  {
    if s != [] && IsSpace(s[0]) then SkipSpace(s[1..]) else s
  }

  /** Every run of white space becomes one space. */
  function Collapse(s: string): string
    decreases |s|
  {
    if s == [] then []
    else if IsSpace(s[0]) then [' '] + Collapse(SkipSpace(s))
    else [s[0]] + Collapse(s[1..])
  }

  /** `_normalized_architecture` */
  function NormalName(s: string): string {
    FoldText(TrimEnd(TrimStart(Collapse(SpellAnd(s)))))
  }

  /** Lower case without `&`, words separated by single spaces, no space at the ends. */
  predicate IsNormal(s: string) {
    && Plain(s) && Spaced(s) && NoSpaceAtEnds(s) && Lowered(s)
  }

  predicate Plain(s: string) { '&' !in s }

  predicate Spaced(s: string) {
    && (forall k :: 0 <= k < |s| && IsSpace(s[k]) ==> s[k] == ' ')
    && (forall k :: 0 <= k < |s| - 1 ==> !(IsSpace(s[k]) && IsSpace(s[k + 1])))
  }

  predicate NoSpaceAtEnds(s: string) { s != [] ==> !IsSpace(s[0]) && !IsSpace(s[|s| - 1]) }

  predicate Lowered(s: string) { forall k :: 0 <= k < |s| ==> !('A' <= s[k] <= 'Z') }

  lemma {:induction false} SpellAndIsPlain(s: string)
    ensures Plain(SpellAnd(s))
    ensures Plain(s) ==> SpellAnd(s) == s
  {
    if s != [] {
      SpellAndIsPlain(s[1..]);
      assert s == [s[0]] + s[1..];
    }
  }

  lemma {:induction false} CollapseIsSpaced(s: string)
    ensures Spaced(Collapse(s)) && (Plain(s) ==> Plain(Collapse(s)))
    ensures s != [] ==> Collapse(s) != [] && (IsSpace(Collapse(s)[0]) <==> IsSpace(s[0]))
    ensures s == [] ==> Collapse(s) == []
    decreases |s|
  {
    if s != [] {
      var rest := if IsSpace(s[0]) then SkipSpace(s) else s[1..];
      CollapseIsSpaced(rest);
      var r := Collapse(s);
      assert r[1..] == Collapse(rest);
      forall k | 0 <= k < |r| - 1 ensures !(IsSpace(r[k]) && IsSpace(r[k + 1])) {
        if k > 0 { assert r[k] == r[1..][k - 1] && r[k + 1] == r[1..][k]; } else { assert r[1] == r[1..][0]; }
      }
      forall k | 0 <= k < |r| && IsSpace(r[k]) ensures r[k] == ' ' {
        if k > 0 { assert r[k] == r[1..][k - 1]; }
      }
    }
  }

  lemma {:induction false} SpacedStays(s: string)
    requires Spaced(s)
    ensures Collapse(s) == s
  {
    if s != [] {
      SpacedStays(s[1..]);
      assert s == [s[0]] + s[1..];
      if IsSpace(s[0]) { assert SkipSpace(s) == s[1..] by { assert |s| > 1 ==> s[1..][0] == s[1]; } }
    }
  }

  lemma SliceKeeps(s: string, i: nat, j: nat)
    requires i <= j <= |s| && Plain(s) && Spaced(s)
    ensures Plain(s[i..j]) && Spaced(s[i..j])
  {
    var t := s[i..j];
    assert forall k :: 0 <= k < |t| ==> t[k] == s[i + k];
    assert Plain(t);
    forall k | 0 <= k < |t| - 1 ensures !(IsSpace(t[k]) && IsSpace(t[k + 1])) {
      assert t[k] == s[i + k] && t[k + 1] == s[i + k + 1];
    }
  }

  lemma TrimmedIs(s: string)
    requires Plain(s) && Spaced(s)
    ensures var t := TrimEnd(TrimStart(s)); Plain(t) && Spaced(t) && NoSpaceAtEnds(t)
  {
    TrimStartIs(s);
    var l := TrimStart(s);
    var i :| 0 <= i <= |s| && l == s[i..];
    SliceKeeps(s, i, |s|);
    assert s[i..] == s[i..|s|];
    TrimEndIs(l);
    var j := |TrimEnd(l)|;
    assert TrimEnd(l) == l[..j];
    SliceKeeps(l, 0, j);
    assert l[..j] == l[0..j];
  }

  lemma LoweredKeeps(s: string)
    requires Plain(s) && Spaced(s) && NoSpaceAtEnds(s)
    ensures IsNormal(FoldText(s))
  {
    var r := FoldText(s);
    assert forall k :: 0 <= k < |r| ==> r[k] == Fold(s[k]);
    assert forall c :: IsSpace(Fold(c)) <==> IsSpace(c);
  }

  /** Normalisation reaches a normal form, and leaves exactly the normal forms alone; so it is a projection. */
  lemma NormalNameIsProjection(s: string)
    ensures IsNormal(NormalName(s))
    ensures NormalName(s) == s <==> IsNormal(s)
    ensures NormalName(NormalName(s)) == NormalName(s)
  {
    NormalNameIsNormal(s);
    NormalStays(NormalName(s));
    if IsNormal(s) { NormalStays(s); }
  }

  lemma NormalNameIsNormal(s: string)
    ensures IsNormal(NormalName(s))
  {
    SpellAndIsPlain(s);
    CollapseIsSpaced(SpellAnd(s));
    TrimmedIs(Collapse(SpellAnd(s)));
    LoweredKeeps(TrimEnd(TrimStart(Collapse(SpellAnd(s)))));
  }

  lemma NormalStays(s: string)
    requires IsNormal(s)
    ensures NormalName(s) == s
  {
    SpellAndIsPlain(s);
    SpacedStays(s);
    TrimStartIs(s);
    TrimEndIs(s);
    assert FoldText(s) == s;
  }

  // ----- what does not count

  lemma {:induction false} SpellAndOfBoth(a: string, b: string)
    ensures SpellAnd(a + b) == SpellAnd(a) + SpellAnd(b)
  {
    if a == "" {
      assert a + b == b;
    } else {
      assert (a + b)[1..] == a[1..] + b;
      SpellAndOfBoth(a[1..], b);
    }
  }

  lemma {:induction false} SkipSpaceOfBoth(a: string, b: string)
    ensures SkipSpace(a + b) == if SkipSpace(a) == "" then SkipSpace(b) else SkipSpace(a) + b
  {
    if a == "" {
      assert a + b == b;
    } else {
      assert (a + b)[1..] == a[1..] + b;
      SkipSpaceOfBoth(a[1..], b);
    }
  }

  predicate SameAfterSpace(x: string, y: string) {
    x != "" && y != "" && IsSpace(x[0]) && IsSpace(y[0]) && SkipSpace(x) == SkipSpace(y)
  }

  lemma {:induction false} CollapseSees(a: string, x: string, y: string)
    requires SameAfterSpace(x, y)
    ensures Collapse(a + x) == Collapse(a + y)
    decreases |a|
  {
    if a == "" {
      assert a + x == x && a + y == y;
    } else if IsSpace(a[0]) {
      SkipSpaceOfBoth(a, x);
      SkipSpaceOfBoth(a, y);
      if SkipSpace(a) != "" { CollapseSees(SkipSpace(a), x, y); }
      assert Collapse(a + x) == [' '] + Collapse(SkipSpace(a + x));
    } else {
      assert (a + x)[1..] == a[1..] + x && (a + y)[1..] == a[1..] + y;
      CollapseSees(a[1..], x, y);
    }
  }

  lemma SpellAndOfThree(a: string, w: string, b: string)
    ensures SpellAnd(a + w + b) == SpellAnd(a) + SpellAnd(w) + SpellAnd(b)
  {
    SpellAndOfBoth(a + w, b);
    SpellAndOfBoth(a, w);
  }

  lemma AndSpelled()
    ensures SpellAnd("&") == "and" == SpellAnd("and")
  {
    assert SpellAnd("&") == "and" + SpellAnd("");
    SpellAndIsPlain("and");
  }

  /** `&` is read as `and`. */
  lemma AmpersandIsAnd(a: string, b: string)
    ensures NormalName(a + "&" + b) == NormalName(a + "and" + b)
  {
    SpellAndOfThree(a, "&", b);
    SpellAndOfThree(a, "and", b);
    AndSpelled();
  }

  predicate Blank(w: string) {
    w != "" && forall k :: 0 <= k < |w| ==> IsSpace(w[k])
  }

  lemma {:induction false} BlankIsSkipped(w: string, b: string)
    requires Blank(w)
    ensures SameAfterSpace(w + b, " " + b)
  {
    assert SkipSpace(" " + b) == SkipSpace(b) by { assert (" " + b)[1..] == b; }
    assert (w + b)[1..] == w[1..] + b;
    if |w| == 1 { assert w[1..] + b == b; } else { BlankIsSkipped(w[1..], b); }
  }

  /** Any white space between two parts is read as one blank. */
  lemma WhiteSpaceIsBlank(a: string, w: string, b: string)
    requires Blank(w)
    ensures NormalName(a + w + b) == NormalName(a + " " + b)
  {
    SpellAndOfThree(a, w, b);
    SpellAndOfThree(a, " ", b);
    BlankSpelled(w);
    BlankSpelled(" ");
    CollapsedBetween(SpellAnd(a), w, SpellAnd(b));
  }

  lemma BlankSpelled(w: string)
    requires Blank(w)
    ensures SpellAnd(w) == w
  {
    SpellAndIsPlain(w);
  }

  lemma CollapsedBetween(x: string, w: string, y: string)
    requires Blank(w)
    ensures Collapse(x + w + y) == Collapse(x + " " + y)
  {
    BlankIsSkipped(w, y);
    CollapseSees(x, w + y, " " + y);
    assert x + w + y == x + (w + y) && x + " " + y == x + (" " + y);
  }

  lemma {:induction false} TrailingBlank(s: string)
    ensures Collapse(s + " ") == Collapse(s) || Collapse(s + " ") == Collapse(s) + " "
    decreases |s|
  {
    if s == "" {
      assert s + " " == " " && SkipSpace(" ") == "";
    } else if IsSpace(s[0]) {
      SkipSpaceOfBoth(s, " ");
      assert SkipSpace(" ") == "";
      if SkipSpace(s) != "" { TrailingBlank(SkipSpace(s)); }
    } else {
      assert (s + " ")[1..] == s[1..] + " ";
      TrailingBlank(s[1..]);
    }
  }

  lemma {:induction false} TrimmedOfBoth(s: string)
    ensures TrimEnd(TrimStart(s + " ")) == TrimEnd(TrimStart(s))
  {
    if s != "" && IsSpace(s[0]) {
      assert (s + " ")[1..] == s[1..] + " ";
      TrimmedOfBoth(s[1..]);
    } else if s != "" {
      assert (s + " ")[..|s|] == s;
    } else {
      assert s + " " == " " && " "[1..] == "";
    }
  }

  /** Blanks at the ends do not count. */
  lemma EndsDoNotCount(s: string)
    ensures NormalName(" " + s) == NormalName(s) == NormalName(s + " ")
  {
    SpellAndOfBoth(" ", s);
    SpellAndOfBoth(s, " ");
    SpellAndIsPlain(" ");
    var t := SpellAnd(s);
    LeadingBlank(t);
    TrailingBlank(t);
    TrimmedOfBoth(Collapse(t));
  }

  lemma LeadingBlank(t: string)
    ensures TrimStart(Collapse(" " + t)) == TrimStart(Collapse(t))
  {
    assert (" " + t)[1..] == t;
    assert Collapse(" " + t)[1..] == Collapse(SkipSpace(t));
    if t != "" && IsSpace(t[0]) { assert Collapse(t)[1..] == Collapse(SkipSpace(t)); }
  }

  lemma {:induction false} FoldTextIs(s: string)
    requires s != ""
    ensures FoldText(s) == [Fold(s[0])] + FoldText(s[1..])
  {
  }

  lemma {:induction false} SpellAndFolds(s: string)
    ensures FoldText(SpellAnd(s)) == SpellAnd(FoldText(s))
  {
    if s != "" {
      SpellAndFolds(s[1..]);
      FoldTextIs(s);
      var head := if s[0] == '&' then "and" else [s[0]];
      assert FoldText(head + SpellAnd(s[1..])) == FoldText(head) + FoldText(SpellAnd(s[1..]));
      assert FoldText(s)[1..] == FoldText(s[1..]);
    }
  }

  lemma {:induction false} SkipSpaceFolds(s: string)
    ensures FoldText(SkipSpace(s)) == SkipSpace(FoldText(s))
  {
    if s != "" && IsSpace(s[0]) {
      SkipSpaceFolds(s[1..]);
      assert FoldText(s)[1..] == FoldText(s[1..]);
    }
  }

  lemma {:induction false} CollapseFolds(s: string)
    ensures FoldText(Collapse(s)) == Collapse(FoldText(s))
    decreases |s|
  {
    if s != "" {
      var rest := if IsSpace(s[0]) then SkipSpace(s) else s[1..];
      CollapseFolds(rest);
      SkipSpaceFolds(s);
      assert FoldText(s)[1..] == FoldText(s[1..]);
      FoldTextIs(Collapse(s));
      assert Collapse(s)[1..] == Collapse(rest);
    }
  }

  lemma {:induction false} TrimStartFolds(s: string)
    ensures FoldText(TrimStart(s)) == TrimStart(FoldText(s))
  {
    if s != "" && IsSpace(s[0]) {
      TrimStartFolds(s[1..]);
      assert FoldText(s)[1..] == FoldText(s[1..]);
    }
  }

  lemma {:induction false} TrimEndFolds(s: string)
    ensures FoldText(TrimEnd(s)) == TrimEnd(FoldText(s))
  {
    if s != "" && IsSpace(s[|s| - 1]) {
      TrimEndFolds(s[..|s| - 1]);
      assert FoldText(s)[..|s| - 1] == FoldText(s[..|s| - 1]);
    }
  }

  /** Letter case does not count. */
  lemma CaseDoesNotCount(s: string)
    ensures NormalName(FoldText(s)) == NormalName(s)
  {
    SpellAndFolds(s);
    CollapseFolds(SpellAnd(s));
    TrimStartFolds(Collapse(SpellAnd(s)));
    TrimEndFolds(TrimStart(Collapse(SpellAnd(s))));
    var r := TrimEnd(TrimStart(Collapse(SpellAnd(s))));
    assert FoldText(FoldText(r)) == FoldText(r);
  }
}

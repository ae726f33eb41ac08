/** Archive names in code-point order, the order in which archives are written. */
module NameOrder {
  import opened Counting

  predicate Before(a: string, b: string) {
    b != [] && (a == [] || a[0] < b[0] || (a[0] == b[0] && Before(a[1..], b[1..])))
  }

  /** Names that first differ in a character are in the order of these characters. */
  lemma {:induction false} FirstDifferenceDecides(common: string, c: char, d: char, x: string, y: string)
    requires c < d
    ensures Before(common + [c] + x, common + [d] + y)
  {
    if common != "" {
      FirstDifferenceDecides(common[1..], c, d, x, y);
      assert (common + [c] + x)[1..] == common[1..] + [c] + x && (common + [d] + y)[1..] == common[1..] + [d] + y;
    }
  }

  /** A name comes before its continuations. */
  lemma {:induction false} PrefixIsBefore(name: string, more: string)
    requires more != ""
    ensures Before(name, name + more)
  {
    if name != "" {
      PrefixIsBefore(name[1..], more);
      assert (name + more)[1..] == name[1..] + more;
    }
  }

  lemma {:induction false} Trichotomy(a: string, b: string)
    ensures Before(a, b) || Before(b, a) || a == b
    ensures !(Before(a, b) && Before(b, a)) && !(a == b && Before(a, b))
    decreases |a|
  {
    if a != [] && b != [] && a[0] == b[0] {
      Trichotomy(a[1..], b[1..]);
      assert a == [a[0]] + a[1..] && b == [b[0]] + b[1..];
    }
  }

  lemma {:induction false} Transitive(a: string, b: string, c: string)
    requires Before(a, b) && Before(b, c)
    ensures Before(a, c)
    decreases |a|
  {
    if a != [] && a[0] == b[0] && b[0] == c[0] {
      Transitive(a[1..], b[1..], c[1..]);
    }
  }

  ghost predicate Ascending(s: seq<string>) {
    forall i, j :: 0 <= i < j < |s| ==> Before(s[i], s[j])
  }

  /** The names in ascending order, each once. */
  ghost predicate Lists(s: seq<string>, names: set<string>) {
    Ascending(s) && Elements(s) == names
  }

  lemma AscendingIsDistinct(s: seq<string>)
    requires Ascending(s)
    ensures Distinct(s)
  {
    forall i, j | 0 <= i < j < |s| ensures s[i] != s[j] { Trichotomy(s[i], s[j]); }
  }

  /** There is only one such list. */
  lemma {:induction false} OneList(a: seq<string>, b: seq<string>)
    requires Ascending(a) && Ascending(b) && Elements(a) == Elements(b)
    ensures a == b
    decreases |a|
  {
    if a == [] {
      NothingListed(a);
      NothingListed(b);
    } else {
      assert a[0] in Elements(b);
      assert b != [];
      FirstIsLeast(a, b);
      FirstIsLeast(b, a);
      Trichotomy(a[0], b[0]);
      TailElements(a);
      TailElements(b);
      OneList(a[1..], b[1..]);
      assert a == [a[0]] + a[1..] && b == [b[0]] + b[1..];
    }
  }

  lemma FirstIsLeast(a: seq<string>, b: seq<string>)
    requires Ascending(a) && a != [] && b != [] && Elements(a) == Elements(b)
    ensures a[0] == b[0] || Before(a[0], b[0])
  {
    assert b[0] in Elements(a);
    var k :| 0 <= k < |a| && a[k] == b[0];
  }

  lemma TailElements(a: seq<string>)
    requires Ascending(a) && a != []
    ensures Ascending(a[1..]) && Elements(a[1..]) == Elements(a) - {a[0]}
  {
    AscendingIsDistinct(a);
    assert a == [a[0]] + a[1..];
    forall i, j | 0 <= i < j < |a[1..]| ensures Before(a[1..][i], a[1..][j]) { assert Before(a[i + 1], a[j + 1]); }
    assert a[0] !in a[1..] by { assert forall k :: 0 <= k < |a[1..]| ==> a[1..][k] == a[k + 1]; }
  }

  ghost predicate IsLeast(x: string, names: set<string>) {
    x in names && forall y :: y in names && y != x ==> Before(x, y)
  }

  /** One pass over the names keeps the least one seen. */
  method Least(names: set<string>) returns (least: string)
    requires names != {}
    ensures IsLeast(least, names)
  {
    least :| least in names;
    var seen, todo := {least}, names - {least};
    while todo != {}
      invariant seen + todo == names && IsLeast(least, seen)
      decreases todo
    {
      var x :| x in todo;
      Trichotomy(x, least);
      if Before(x, least) {
        forall y | y in seen && y != least ensures Before(x, y) { Transitive(x, least, y); }
        least := x;
      }
      seen, todo := seen + {x}, todo - {x};
    }
  }

  /** `sorted` on a set of names. */
  method Sort(names: set<string>) returns (s: seq<string>)
    ensures Lists(s, names)
  {
    s := [];
    var todo := names;
    while todo != {}
      invariant Ascending(s) && todo <= names && Elements(s) == names - todo
      invariant forall x, y :: x in s && y in todo ==> Before(x, y)
      decreases todo
    {
      var x := Least(todo);
      assert forall i :: 0 <= i < |s| ==> Before(s[i], x) by { assert forall i :: 0 <= i < |s| ==> s[i] in s; }
      assert Elements(s + [x]) == Elements(s) + {x};
      s := s + [x];
      todo := todo - {x};
    }
  }

  lemma {:induction false} ListExists(names: set<string>) returns (s: seq<string>)
    ensures Lists(s, names)
    decreases |names|
  {
    if names == {} {
      s := [];
    } else {
      var x := LeastExists(names);
      var rest := ListExists(names - {x});
      s := [x] + rest;
      assert Elements(s) == {x} + Elements(rest);
      forall i, j | 0 <= i < j < |s| ensures Before(s[i], s[j]) {
        if i == 0 { assert rest[j - 1] in Elements(rest); }
      }
    }
  }

  lemma {:induction false} LeastExists(names: set<string>) returns (x: string)
    requires names != {}
    ensures IsLeast(x, names)
    decreases |names|
  {
    var y :| y in names;
    var rest := names - {y};
    if rest == {} {
      assert names == {y} + rest;
      x := y;
    } else {
      var z := LeastExists(rest);
      Trichotomy(y, z);
      if Before(y, z) {
        x := y;
        forall w | w in names && w != y ensures Before(y, w) {
          assert w in rest;
          if w != z { Transitive(y, z, w); }
        }
      } else {
        x := z;
        forall w | w in names && w != z ensures Before(z, w) { assert w == y || w in rest; }
      }
    }
  }

  lemma SomeList(names: set<string>)
    ensures exists s :: Lists(s, names)
  {
    var s := ListExists(names);
  }

  ghost function Sorted(names: set<string>): (s: seq<string>)
    ensures Lists(s, names)
  {
    SomeList(names);
    var s :| Lists(s, names);
    s
  }
}

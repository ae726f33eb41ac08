/** Counting facts behind the recurring test `len(set(values)) == len(values)`. */
module Counting {

  function Elements<T>(s: seq<T>): set<T> {
    set x | x in s
  }

  predicate Distinct<T(==)>(s: seq<T>) {
    forall i, j :: 0 <= i < j < |s| ==> s[i] != s[j]
  }

  lemma NothingListed<T>(s: seq<T>)
    ensures Elements(s) == {} <==> s == []
  {
    assert s != [] ==> s[0] in Elements(s);
  }

  /** A list has no repetition exactly when its set is as large as the list. */
  lemma {:induction false} DistinctIffAllCounted<T>(s: seq<T>)
    ensures |Elements(s)| <= |s|
    ensures Distinct(s) <==> |Elements(s)| == |s|
  {
    if s != [] {
      var front, last := s[..|s| - 1], s[|s| - 1];
      DistinctIffAllCounted(front);
      assert s == front + [last];
      assert Elements(s) == Elements(front) + {last};
      if last in front {
        assert Elements(s) == Elements(front);
        var k :| 0 <= k < |front| && front[k] == last;
        assert s[k] == s[|s| - 1];
      } else {
        assert forall i, j :: 0 <= i < j < |front| ==> front[i] == s[i] && front[j] == s[j];
        if Distinct(front) {
          forall i, j | 0 <= i < j < |s| ensures s[i] != s[j] {
            if j == |s| - 1 { assert front[i] == s[i]; }
          }
        }
      }
    }
  }

  /** Two lists of the same length, the first without repetition and contained in the second, are permutations. */
  lemma {:induction false} ContainedIsPermutation<T>(a: seq<T>, b: seq<T>)
    requires Distinct(a) && |a| == |b| && forall x :: x in a ==> x in b
    ensures multiset(a) == multiset(b)
    decreases |a|
  {
    if a != [] {
      var x, rest := a[0], a[1..];
      assert a == [x] + rest;
      assert x !in rest by { assert forall k :: 0 <= k < |rest| ==> rest[k] == a[k + 1]; }
      assert x in b;
      var k :| 0 <= k < |b| && b[k] == x;
      var others := b[..k] + b[k + 1..];
      assert b == b[..k] + [x] + b[k + 1..];
      forall y | y in rest ensures y in others {
        assert y in a && y != x;
      }
      assert Distinct(rest) by {
        assert forall i, j :: 0 <= i < j < |rest| ==> rest[i] == a[i + 1] && rest[j] == a[j + 1];
      }
      ContainedIsPermutation(rest, others);
    }
  }

  function Image<S(!new), T(!new)>(xs: set<S>, f: S -> T): set<T> {
    set x | x in xs :: f(x)
  }

  ghost predicate InjectiveOn<S(!new), T(!new)>(xs: set<S>, f: S -> T) {
    forall x, y :: x in xs && y in xs && f(x) == f(y) ==> x == y
  }

  /** A renaming keeps the number of elements exactly when it merges none of them. */
  lemma {:induction false} ImageSize<S(!new), T(!new)>(xs: set<S>, f: S -> T)
    ensures |Image(xs, f)| <= |xs|
    ensures |Image(xs, f)| == |xs| <==> InjectiveOn(xs, f)
  {
    if xs != {} {
      var x :| x in xs;
      var rest := xs - {x};
      ImageSize(rest, f);
      assert Image(xs, f) == Image(rest, f) + {f(x)};
      if f(x) in Image(rest, f) {
        var y :| y in rest && f(y) == f(x);
        assert Image(xs, f) == Image(rest, f);
      }
    }
  }

  lemma ImageWithin<S(!new), T(!new)>(xs: set<S>, f: S -> T, ys: set<T>)
    ensures Image(xs, f) - ys == {} <==> forall x :: x in xs ==> f(x) in ys
  {
    if Image(xs, f) - ys == {} {
      forall x | x in xs ensures f(x) in ys { assert f(x) in Image(xs, f); assert f(x) !in Image(xs, f) - ys; }
    }
  }

  lemma DisjointMeans<T(!new)>(xs: set<T>, ys: set<T>)
    ensures xs * ys == {} <==> forall x :: x in xs ==> x !in ys
  {
    if xs * ys == {} {
      forall x | x in xs ensures x !in ys { assert x !in xs * ys; }
    }
  }

  // ----- counting the elements with a property

  function Count<T>(s: seq<T>, p: T -> bool): nat {
    if s == [] then 0 else Count(s[..|s| - 1], p) + if p(s[|s| - 1]) then 1 else 0
  }

  lemma {:induction false} CountSplits<T>(a: seq<T>, b: seq<T>, p: T -> bool)
    ensures Count(a + b, p) == Count(a, p) + Count(b, p)
  {
    if b == [] {
      assert a + b == a;
    } else {
      var n := |b| - 1;
      CountSplits(a, b[..n], p);
      assert (a + b)[..|a + b| - 1] == a + b[..n];
    }
  }

  lemma CountOne<T>(x: T, p: T -> bool)
    ensures Count([x], p) == if p(x) then 1 else 0
  {
    assert [x][..0] == [];
  }

  lemma {:induction false} CountMeans<T>(s: seq<T>, p: T -> bool)
    ensures Count(s, p) > 0 <==> exists x :: x in s && p(x)
  {
    if s != [] {
      var front, last := s[..|s| - 1], s[|s| - 1];
      CountMeans(front, p);
      assert s == front + [last];
    }
  }

  /** Counting is the same in every order. */
  lemma {:induction false} CountIgnoresOrder<T>(a: seq<T>, b: seq<T>, p: T -> bool)
    requires multiset(a) == multiset(b)
    ensures Count(a, p) == Count(b, p)
  {
    if a == [] {
      assert |multiset(b)| == 0;
    } else {
      var front, last := a[..|a| - 1], a[|a| - 1];
      assert a == front + [last];
      assert last in multiset(b);
      var k :| 0 <= k < |b| && b[k] == last;
      var left, right := b[..k], b[k + 1..];
      Without(a, b, k);
      CountIgnoresOrder(front, left + right, p);
      CountSplits(left, right, p);
      CountSplits(left, [last] + right, p);
      CountSplits([last], right, p);
      CountOne(last, p);
      assert b == left + ([last] + right);
    }
  }

  lemma Without<T>(a: seq<T>, b: seq<T>, k: nat)
    requires a != [] && k < |b| && b[k] == a[|a| - 1] && multiset(a) == multiset(b)
    ensures multiset(a[..|a| - 1]) == multiset(b[..k] + b[k + 1..])
  {
    var last := [b[k]];
    assert a == a[..|a| - 1] + last;
    assert b == b[..k] + last + b[k + 1..];
    assert multiset(a[..|a| - 1]) == multiset(a) - multiset(last);
    assert multiset(b[..k] + b[k + 1..]) == multiset(b) - multiset(last);
  }

  function Mapped<S, T>(s: seq<S>, f: S -> T): seq<T> {
    seq(|s|, k requires 0 <= k < |s| => f(s[k]))
  }

  lemma {:induction false} CountIsMultiplicity<S, T>(s: seq<S>, f: S -> T, y: T, p: S -> bool)
    requires forall k :: 0 <= k < |s| ==> p(s[k]) == (f(s[k]) == y)
    ensures multiset(Mapped(s, f))[y] == Count(s, p)
  {
    if s != [] {
      var front, last := s[..|s| - 1], s[|s| - 1];
      CountIsMultiplicity(front, f, y, p);
      assert Mapped(s, f) == Mapped(front, f) + [f(last)];
    }
  }

  /** Mapping keeps permutations. */
  lemma MappedIgnoresOrder<S, T(!new)>(a: seq<S>, b: seq<S>, f: S -> T)
    requires multiset(a) == multiset(b)
    ensures multiset(Mapped(a, f)) == multiset(Mapped(b, f))
  {
    forall y ensures multiset(Mapped(a, f))[y] == multiset(Mapped(b, f))[y] {
      var p := x => f(x) == y;
      CountIsMultiplicity(a, f, y, p);
      CountIsMultiplicity(b, f, y, p);
      CountIgnoresOrder(a, b, p);
    }
  }

  lemma NothingLeft<T>(xs: set<T>, ys: set<T>)
    ensures xs - ys == {} <==> xs <= ys
  {
    if xs - ys == {} { forall x | x in xs ensures x in ys { assert x !in xs - ys; } }
  }
}

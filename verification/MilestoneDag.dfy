/**
 Validation of the milestone graph: the identifier set, the references, and the layered
 resolution loop that rejects a cyclic graph.
 */
module MilestoneDag {

  type Id = string
  type Graph = map<Id, set<Id>>

  datatype Milestone = Milestone(id: Id, dependsOn: seq<Id>)

  datatype Verdict = Accepted | SetMismatch | UnknownDependency | ContainsCycle

  const EXPECTED: set<Id> :=
    {"M0", "M1", "M2", "M3", "M4", "M5", "M6A", "M6B", "M7", "M8A", "M8B", "M8C", "M9", "M10", "M11", "M12"}

  /** Every dependency is itself a milestone. */
  predicate Closed(g: Graph) {
    forall k :: k in g ==> g[k] <= g.Keys
  }

  /** A walk along dependencies. */
  ghost predicate Walk(g: Graph, p: seq<Id>) {
    && (forall k :: 0 <= k < |p| ==> p[k] in g)
    && (forall k :: 0 <= k < |p| - 1 ==> p[k + 1] in g[p[k]])
  }

  ghost predicate Cycle(g: Graph, p: seq<Id>) {
    |p| >= 2 && Walk(g, p) && p[0] == p[|p| - 1]
  }

  ghost predicate Acyclic(g: Graph) {
    forall p :: !Cycle(g, p)
  }

  /** The layers are disjoint and each node's dependencies lie in strictly earlier layers. */
  ghost predicate Layered(g: Graph, layers: seq<set<Id>>) {
    && (forall n, x :: 0 <= n < |layers| && x in layers[n] ==> x in g && g[x] <= Union(layers[..n]))
    && (forall n, m :: 0 <= n < m < |layers| ==> layers[n] !! layers[m])
  }

  function Union(layers: seq<set<Id>>): set<Id> {
    if layers == [] then {} else Union(layers[..|layers| - 1]) + layers[|layers| - 1]
  }

  lemma {:induction false} UnionHolds(layers: seq<set<Id>>, x: Id)
    ensures x in Union(layers) <==> exists n :: 0 <= n < |layers| && x in layers[n]
  {
    if layers != [] {
      UnionHolds(layers[..|layers| - 1], x);
    }
  }

  lemma {:induction false} WalkGoesDown(g: Graph, layers: seq<set<Id>>, p: seq<Id>, first: nat)
    requires Layered(g, layers) && Walk(g, p) && p != []
    requires first < |layers| && p[0] in layers[first]
    ensures exists last ::
              0 <= last <= first && last < |layers| && p[|p| - 1] in layers[last] && (|p| > 1 ==> last < first)
    decreases |p|
  {
    if |p| > 1 {
      assert p[1] in g[p[0]];
      UnionHolds(layers[..first], p[1]);
      var n :| 0 <= n < |layers[..first]| && p[1] in layers[..first][n];
      var tail := p[1..];
      assert Walk(g, tail) by {
        forall k | 0 <= k < |tail| - 1 ensures tail[k + 1] in g[tail[k]] { assert p[k + 1 + 1] in g[p[k + 1]]; }
      }
      WalkGoesDown(g, layers, tail, n);
    }
  }

  /** A layering of all nodes rules out every cycle. */
  lemma LayeredIsAcyclic(g: Graph, layers: seq<set<Id>>)
    requires Layered(g, layers) && Union(layers) == g.Keys
    ensures Acyclic(g)
  {
    forall p | Cycle(g, p) ensures false {
      UnionHolds(layers, p[0]);
      var n :| 0 <= n < |layers| && p[0] in layers[n];
      WalkGoesDown(g, layers, p, n);
    }
  }

  // ----- a stuck remainder holds a cycle

  ghost predicate Stuck(g: Graph, rest: set<Id>) {
    rest != {} && rest <= g.Keys && forall x :: x in rest ==> g[x] * rest != {}
  }

  lemma {:induction false} LongWalk(g: Graph, rest: set<Id>, n: nat) returns (p: seq<Id>)
    requires Stuck(g, rest)
    ensures |p| == n + 1 && Walk(g, p) && forall k :: 0 <= k < |p| ==> p[k] in rest
  {
    if n == 0 {
      var x :| x in rest;
      p := [x];
    } else {
      var q := LongWalk(g, rest, n - 1);
      var y :| y in g[q[n - 1]] * rest;
      p := q + [y];
      forall k | 0 <= k < |p| - 1 ensures p[k + 1] in g[p[k]] {
        assert k < n - 1 ==> q[k + 1] in g[q[k]];
      }
    }
  }

  lemma {:induction false} Repeats(p: seq<Id>, rest: set<Id>) returns (i: nat, j: nat)
    requires |p| > |rest| && forall k :: 0 <= k < |p| ==> p[k] in rest
    ensures i < j < |p| && p[i] == p[j]
    decreases |p|
  {
    var n := |p| - 1;
    if k :| 0 <= k < n && p[k] == p[n] {
      i, j := k, n;
    } else {
      i, j := Repeats(p[..n], rest - {p[n]});
    }
  }

  lemma StuckHasCycle(g: Graph, rest: set<Id>) returns (p: seq<Id>)
    requires Stuck(g, rest)
    ensures Cycle(g, p) && forall k :: 0 <= k < |p| ==> p[k] in rest
  {
    var q := LongWalk(g, rest, |rest|);
    var i, j := Repeats(q, rest);
    p := q[i..j + 1];
    forall k | 0 <= k < |p| - 1 ensures p[k + 1] in g[p[k]] {
      assert q[i + k + 1] in g[q[i + k]];
    }
  }

  /**
   The layered resolution loop.  It completes exactly on acyclic graphs, with a layering of all
   nodes; when it gives up, a dependency cycle runs through the remaining nodes.
   */
  method Resolve(g: Graph) returns (ok: bool, layers: seq<set<Id>>, ghost cycle: seq<Id>)
    requires Closed(g)
    ensures ok <==> Acyclic(g)
    ensures Layered(g, layers)
    ensures ok ==> Union(layers) == g.Keys
    ensures !ok ==> Cycle(g, cycle) && forall k :: 0 <= k < |cycle| ==> cycle[k] in g.Keys - Union(layers)
  {
    var remaining := g;
    var resolved: set<Id> := {};
    layers, cycle := [], [];
    while remaining != map[]
      invariant resolved == Union(layers)
      invariant resolved <= g.Keys
      invariant remaining.Keys == g.Keys - resolved
      invariant forall k :: k in remaining ==> remaining[k] == g[k]
      invariant Layered(g, layers)
      decreases remaining.Keys
    {
      var ready := set key | key in remaining && remaining[key] <= resolved;
      if ready == {} {
        assert forall x :: x in remaining.Keys ==> x !in ready;
        NothingReadyIsStuck(g, remaining.Keys, resolved);
        cycle := StuckHasCycle(g, remaining.Keys);
        return false, layers, cycle;
      }
      ExtendLayers(g, layers, ready);
      layers := layers + [ready];
      resolved := resolved + ready;
      assert ready * remaining.Keys != {};
      remaining := map key | key in remaining && key !in ready :: remaining[key];
    }
    LayeredIsAcyclic(g, layers);
    return true, layers, [];
  }

  lemma NothingReadyIsStuck(g: Graph, rest: set<Id>, resolved: set<Id>)
    requires Closed(g) && rest == g.Keys - resolved && rest != {}
    requires forall x :: x in rest ==> !(g[x] <= resolved)
    ensures Stuck(g, rest)
  {
    forall x | x in rest ensures g[x] * rest != {} {
      var y :| y in g[x] && y !in resolved;
      assert y in g[x] * rest;
    }
  }

  lemma ExtendLayers(g: Graph, layers: seq<set<Id>>, ready: set<Id>)
    requires Layered(g, layers) && ready !! Union(layers)
    requires forall x :: x in ready ==> x in g && g[x] <= Union(layers)
    ensures Layered(g, layers + [ready]) && Union(layers + [ready]) == Union(layers) + ready
  {
    var more := layers + [ready];
    assert more[..|more| - 1] == layers;
    forall n, x | 0 <= n < |more| && x in more[n] ensures x in g && g[x] <= Union(more[..n]) {
      assert n < |layers| ==> more[..n] == layers[..n];
      assert n == |layers| ==> more[..n] == layers;
    }
    forall n, m | 0 <= n < m < |more| ensures more[n] !! more[m] {
      if m == |layers| {
        forall x | x in more[n] ensures x !in ready { UnionHolds(layers, x); }
      }
    }
  }

  /** The dependency table: a repeated identifier keeps its last entry. */
  function Dependencies(milestones: seq<Milestone>): (g: Graph)
    ensures forall k :: k in g <==> exists n :: 0 <= n < |milestones| && milestones[n].id == k
  {
    if milestones == [] then map[] else
      var last := milestones[|milestones| - 1];
      Dependencies(milestones[..|milestones| - 1])[last.id := set d | d in last.dependsOn]
  }

  /** No later entry repeats the identifier of this one. */
  predicate Counts(milestones: seq<Milestone>, n: nat) {
    n < |milestones| && forall m :: n < m < |milestones| ==> milestones[m].id != milestones[n].id
  }

  /** The table has exactly the dependencies of the entries that count. */
  lemma {:induction false} DependenciesOfEntry(milestones: seq<Milestone>, n: nat)
    requires Counts(milestones, n)
    ensures Dependencies(milestones)[milestones[n].id] == set d | d in milestones[n].dependsOn
  {
    var last := |milestones| - 1;
    if n < last {
      assert forall m :: 0 <= m < last ==> milestones[..last][m] == milestones[m];
      DependenciesOfEntry(milestones[..last], n);
    }
  }

  /** The entry of the list that counts for `x` names `y` as a dependency. */
  ghost predicate DependsOn(milestones: seq<Milestone>, x: Id, y: Id) {
    exists n: nat :: Counts(milestones, n) && milestones[n].id == x && y in milestones[n].dependsOn
  }

  ghost predicate IsId(milestones: seq<Milestone>, x: Id) {
    exists n :: 0 <= n < |milestones| && milestones[n].id == x
  }

  /** A way along dependencies of the list that comes back to where it began. */
  ghost predicate ListCycle(milestones: seq<Milestone>, p: seq<Id>) {
    && |p| >= 2 && p[0] == p[|p| - 1]
    && forall k :: 0 <= k < |p| - 1 ==> DependsOn(milestones, p[k], p[k + 1])
  }

  /** Every dependency is an identifier of the list. */
  ghost predicate ListClosed(milestones: seq<Milestone>) {
    forall x, y :: DependsOn(milestones, x, y) ==> IsId(milestones, y)
  }

  lemma {:induction false} EntryCounts(milestones: seq<Milestone>, x: Id) returns (n: nat)
    requires IsId(milestones, x)
    ensures Counts(milestones, n) && milestones[n].id == x
  {
    var last := |milestones| - 1;
    if milestones[last].id == x {
      n := last;
    } else {
      var m :| 0 <= m < |milestones| && milestones[m].id == x;
      assert milestones[..last][m].id == x;
      n := EntryCounts(milestones[..last], x);
      assert forall j :: 0 <= j < last ==> milestones[..last][j] == milestones[j];
    }
  }

  lemma TableMeans(milestones: seq<Milestone>, x: Id, y: Id)
    ensures x in Dependencies(milestones) <==> IsId(milestones, x)
    ensures x in Dependencies(milestones) ==> (y in Dependencies(milestones)[x] <==> DependsOn(milestones, x, y))
    ensures DependsOn(milestones, x, y) ==> x in Dependencies(milestones)
  {
    if IsId(milestones, x) {
      var n := EntryCounts(milestones, x);
      DependenciesOfEntry(milestones, n);
      forall m: nat | Counts(milestones, m) && milestones[m].id == x ensures m == n {}
    }
  }

  /** Closed and acyclic, said of the list. */
  lemma ListMeans(milestones: seq<Milestone>)
    ensures Closed(Dependencies(milestones)) <==> ListClosed(milestones)
    ensures Acyclic(Dependencies(milestones)) <==> forall p :: !ListCycle(milestones, p)
  {
    var g := Dependencies(milestones);
    forall x, y
      ensures x in g <==> IsId(milestones, x)
      ensures x in g ==> (y in g[x] <==> DependsOn(milestones, x, y))
      ensures DependsOn(milestones, x, y) ==> x in g
    {
      TableMeans(milestones, x, y);
    }
    forall p ensures Cycle(g, p) <==> ListCycle(milestones, p) { CycleMeans(milestones, p); }
  }

  lemma CycleMeans(milestones: seq<Milestone>, p: seq<Id>)
    ensures Cycle(Dependencies(milestones), p) <==> ListCycle(milestones, p)
  {
    var g := Dependencies(milestones);
    if |p| >= 2 && p[0] == p[|p| - 1] {
      forall k | 0 <= k < |p| - 1
        ensures p[k] in g ==> (p[k + 1] in g[p[k]] <==> DependsOn(milestones, p[k], p[k + 1]))
        ensures DependsOn(milestones, p[k], p[k + 1]) ==> p[k] in g
      {
        TableMeans(milestones, p[k], p[k + 1]);
      }
      if ListCycle(milestones, p) {
        assert DependsOn(milestones, p[0], p[0 + 1]);
        forall k | 0 <= k < |p| ensures p[k] in g { assert k < |p| - 1 ==> DependsOn(milestones, p[k], p[k + 1]); }
      }
    }
  }

  /** The whole check, said of the list: each error names the first condition that fails, acceptance means that all
      hold. */
  method Validate(milestones: seq<Milestone>) returns (verdict: Verdict)
    ensures verdict.SetMismatch? <==> (set n | 0 <= n < |milestones| :: milestones[n].id) != EXPECTED
    ensures verdict.UnknownDependency? <==> !verdict.SetMismatch? && !ListClosed(milestones)
    ensures verdict.ContainsCycle? <==>
            !verdict.SetMismatch? && ListClosed(milestones) && exists p :: ListCycle(milestones, p)
    ensures verdict.Accepted? <==>
            && (set n | 0 <= n < |milestones| :: milestones[n].id) == EXPECTED
            && ListClosed(milestones) && forall p :: !ListCycle(milestones, p)
  {
    var g := Dependencies(milestones);
    ListMeans(milestones);
    assert g.Keys == set n | 0 <= n < |milestones| :: milestones[n].id;
    if g.Keys != EXPECTED {
      return SetMismatch;
    }
    if !Closed(g) {
      return UnknownDependency;
    }
    var ok, _, _ := Resolve(g);
    return if ok then Accepted else ContainsCycle;
  }
}

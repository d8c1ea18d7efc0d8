/** Task graphs: what validity means, and that it is the same as the greedy scheduler finishing. */
module TaskGraphs {
  /** TaskNode; payload contents play no part in the graph. */
  datatype TaskNode = TaskNode(nodeId: string, intent: string, object_: string, dependsOn: seq<string>,
                               requiredPermissions: seq<string>)

  datatype GraphError = MissingDependency(node: string, dependency: string) | Cycle(node: string)

  /** The nodes dictionary: keys in insertion order, and the value of each. */
  datatype Graph = Graph(order: seq<string>, nodes: map<string, TaskNode>) {
    ghost predicate Valid() {
      && (forall i, j :: 0 <= i < j < |order| ==> order[i] != order[j])
      && (forall k :: k in order <==> k in nodes)
      && (forall k :: k in nodes ==> nodes[k].nodeId == k)
    }
  }

  // ---- Definitions ----

  ghost predicate Depends(g: Graph, a: string, b: string)
  {
    a in g.nodes && b in g.nodes[a].dependsOn
  }

  ghost predicate NoMissing(g: Graph)
  {
    forall a, b :: Depends(g, a, b) ==> b in g.nodes
  }

  /** Consecutive entries are dependent and dependency. */
  ghost predicate IsPath(g: Graph, p: seq<string>)
  {
    p != [] && forall i :: 0 <= i < |p| - 1 ==> Depends(g, p[i], p[i + 1])
  }

  ghost predicate IsCycle(g: Graph, p: seq<string>)
  {
    |p| >= 2 && IsPath(g, p) && p[0] == p[|p| - 1]
  }

  ghost predicate OnCycle(g: Graph, a: string)
  {
    exists p :: IsCycle(g, p) && p[0] == a
  }

  ghost predicate Acyclic(g: Graph)
  {
    forall p :: !IsCycle(g, p)
  }

  ghost predicate Distinct(f: seq<string>)
  {
    forall i, j :: 0 <= i < j < |f| ==> f[i] != f[j]
  }

  /** No node is repeated, and every known dependency comes before its dependent. */
  ghost predicate Topological(g: Graph, f: seq<string>)
  {
    && Distinct(f)
    && (forall i, d :: 0 <= i < |f| && Depends(g, f[i], d) && d in g.nodes ==> d in f[..i])
  }

  /** The known entries of a dependency list that are not among the earlier nodes. */
  function LateEntries(g: Graph, dependencies: seq<string>, earlier: seq<string>): seq<string>
  {
    if dependencies == [] then []
    else
      var d := dependencies[|dependencies| - 1];
      LateEntries(g, dependencies[..|dependencies| - 1], earlier) + (if d in g.nodes && d !in earlier then [d] else [])
  }

  /** All dependency entries that run against an order: the known ones that do not come before their dependent. */
  function Backward(g: Graph, f: seq<string>): seq<string>
  {
    if f == [] then []
    else
      var (earlier, n) := (f[..|f| - 1], f[|f| - 1]);
      Backward(g, earlier) + (if n in g.nodes then LateEntries(g, g.nodes[n].dependsOn, earlier) else [])
  }

  lemma {:induction false} LateEntryListed(g: Graph, dependencies: seq<string>, earlier: seq<string>, d: string)
    ensures d in LateEntries(g, dependencies, earlier) <==> d in dependencies && d in g.nodes && d !in earlier
  {
    if dependencies != [] {
      LateEntryListed(g, dependencies[..|dependencies| - 1], earlier, d);
      assert dependencies == dependencies[..|dependencies| - 1] + [dependencies[|dependencies| - 1]];
    }
  }

  /** A known dependency that is not against the order comes before its dependent. */
  lemma {:induction false} ForwardIsEarlier(g: Graph, f: seq<string>, i: nat, d: string)
    requires i < |f| && Depends(g, f[i], d) && d in g.nodes && d !in Backward(g, f)
    ensures d in f[..i]
  {
    var earlier := f[..|f| - 1];
    if i == |f| - 1 {
      LateEntryListed(g, g.nodes[f[i]].dependsOn, earlier, d);
    } else {
      ForwardIsEarlier(g, earlier, i, d);
      assert earlier[..i] == f[..i];
    }
  }

  /** An order is topological exactly if no dependency entry runs against it. */
  lemma {:induction false} TopologicalIff(g: Graph, f: seq<string>)
    requires Distinct(f)
    ensures Topological(g, f) <==> Backward(g, f) == []
    decreases |f|
  {
    if Backward(g, f) == [] {
      forall i, d | 0 <= i < |f| && Depends(g, f[i], d) && d in g.nodes
        ensures d in f[..i]
      {
        ForwardIsEarlier(g, f, i, d);
      }
    }
    if Topological(g, f) && f != [] {
      var (earlier, n) := (f[..|f| - 1], f[|f| - 1]);
      forall i, d | 0 <= i < |earlier| && Depends(g, earlier[i], d) && d in g.nodes
        ensures d in earlier[..i]
      {
        assert f[i] == earlier[i] && f[..i] == earlier[..i];
      }
      TopologicalIff(g, earlier);
      if n in g.nodes && LateEntries(g, g.nodes[n].dependsOn, earlier) != [] {
        var d := LateEntries(g, g.nodes[n].dependsOn, earlier)[0];
        LateEntryListed(g, g.nodes[n].dependsOn, earlier, d);
        assert Depends(g, f[|f| - 1], d);
      }
    }
  }

  /** A path that avoids the backward entries only goes back in the order. */
  lemma {:induction false} PathGoesBack(g: Graph, f: seq<string>, p: seq<string>, i: nat)
    requires Distinct(f) && (forall k :: k in g.nodes ==> k in f)
    requires IsPath(g, p) && |p| >= 2 && i < |f| && p[0] == f[i] && p[|p| - 1] in g.nodes
    requires forall k :: 0 <= k < |p| ==> p[k] !in Backward(g, f)
    ensures p[|p| - 1] in f[..i]
    decreases |p|
  {
    hide Backward;
    assert Depends(g, p[0], p[1]);
    if |p| > 2 {
      assert Depends(g, p[1], p[2]);
    }
    ForwardIsEarlier(g, f, i, p[1]);
    if |p| > 2 {
      var j :| 0 <= j < i && f[j] == p[1];
      var q := p[1..];
      forall k | 0 <= k < |q| - 1
        ensures Depends(g, q[k], q[k + 1])
      {
        assert Depends(g, p[k + 1], p[k + 2]);
      }
      PathGoesBack(g, f, q, j);
    }
  }

  /** Every cycle has a node that is a backward entry of any complete order. */
  lemma CyclesRunBackward(g: Graph, f: seq<string>, p: seq<string>)
    requires Distinct(f) && (forall k :: k in g.nodes ==> k in f) && IsCycle(g, p)
    ensures exists k :: 0 <= k < |p| && p[k] in Backward(g, f)
  {
    hide Backward;
    if forall k :: 0 <= k < |p| ==> p[k] !in Backward(g, f) {
      assert Depends(g, p[0], p[1]);
      var i :| 0 <= i < |f| && f[i] == p[0];
      PathGoesBack(g, f, p, i);
    }
  }

  /** A complete order with dependencies first rules out every cycle. */
  lemma TopologicalIsAcyclic(g: Graph, f: seq<string>)
    requires Topological(g, f) && (forall k :: k in g.nodes ==> k in f)
    ensures Acyclic(g)
  {
    TopologicalIff(g, f);
    forall p
      ensures !IsCycle(g, p)
    {
      if IsCycle(g, p) {
        CyclesRunBackward(g, f, p);
      }
    }
  }

  // ---- The greedy scheduler ----

  /** Nodes not completed whose dependencies all are. */
  function ReadyIds(g: Graph, completed: set<string>): set<string>
  {
    set n | n in g.nodes && n !in completed && (forall d :: d in g.nodes[n].dependsOn ==> d in completed)
  }

  /** What is completed after `k` rounds of adding everything that is ready. */
  function Completed(g: Graph, k: nat): set<string>
  {
    if k == 0 then {} else Completed(g, k - 1) + ReadyIds(g, Completed(g, k - 1))
  }

  /** Only known nodes are ever completed, rounds only add, and dependencies are completed in an earlier round. */
  lemma {:induction false} DependenciesFirst(g: Graph, k: nat, n: string)
    requires n in Completed(g, k)
    ensures k > 0 && n in g.nodes
    ensures forall d :: Depends(g, n, d) ==> d in Completed(g, k - 1)
  {
    if n in Completed(g, k - 1) {
      DependenciesFirst(g, k - 1, n);
      forall d | Depends(g, n, d)
        ensures d in Completed(g, k - 1)
      {
        assert d in Completed(g, k - 2);
      }
    }
  }

  /** Along a path from a completed node, completion comes earlier and earlier. */
  lemma {:induction false} PathCompletes(g: Graph, k: nat, p: seq<string>)
    requires IsPath(g, p) && |p| >= 2 && p[0] in Completed(g, k)
    ensures k > 0 && p[|p| - 1] in Completed(g, k - 1)
    decreases |p|
  {
    DependenciesFirst(g, k, p[0]);
    assert Depends(g, p[0], p[1]);
    if |p| > 2 {
      var q := p[1..];
      forall i | 0 <= i < |q| - 1
        ensures Depends(g, q[i], q[i + 1])
      {
        assert Depends(g, p[i + 1], p[i + 2]);
      }
      PathCompletes(g, k - 1, q);
      assert p[|p| - 1] in Completed(g, k - 2);
    }
  }

  lemma {:induction false} CycleNeverCompletes(g: Graph, k: nat, p: seq<string>)
    requires IsCycle(g, p)
    ensures p[0] !in Completed(g, k)
  {
    if p[0] in Completed(g, k) {
      PathCompletes(g, k, p);
      CycleNeverCompletes(g, k - 1, p);
    }
  }

  /** A sequence longer than the set it draws from repeats an element. */
  lemma {:induction false} Pigeonhole(p: seq<string>, s: set<string>) returns (i: nat, j: nat)
    requires |p| > |s| && forall k :: 0 <= k < |p| ==> p[k] in s
    ensures i < j < |p| && p[i] == p[j]
    decreases |s|
  {
    var last := |p| - 1;
    if k :| 0 <= k < last && p[k] == p[last] {
      i, j := k, last;
    } else {
      i, j := Pigeonhole(p[..last], s - {p[last]});
    }
  }

  ghost predicate DependsWithin(g: Graph, s: set<string>, n: string)
  {
    exists d :: d in s && Depends(g, n, d)
  }

  /** Inside a set from which every node depends on another of the set, paths of every length exist. */
  lemma {:induction false} LongPath(g: Graph, s: set<string>, a: string, length: nat) returns (p: seq<string>)
    requires a in s && forall n :: n in s ==> DependsWithin(g, s, n)
    ensures IsPath(g, p) && |p| == length + 1 && p[0] == a && forall k :: 0 <= k < |p| ==> p[k] in s
    decreases length
  {
    hide DependsWithin, Depends;
    if length == 0 {
      p := [a];
    } else {
      var d := NextWithin(g, s, a);
      var q := LongPath(g, s, d, length - 1);
      p := [a] + q;
      forall i | 0 <= i < |p| - 1
        ensures Depends(g, p[i], p[i + 1])
      {
        if i > 0 {
          assert Depends(g, q[i - 1], q[i]);
        }
      }
    }
  }

  lemma NextWithin(g: Graph, s: set<string>, n: string) returns (d: string)
    requires DependsWithin(g, s, n)
    ensures d in s && Depends(g, n, d)
  {
    d :| d in s && Depends(g, n, d);
  }

  lemma SubPath(g: Graph, p: seq<string>, i: nat, j: nat)
    requires IsPath(g, p) && i < j <= |p|
    ensures IsPath(g, p[i..j])
  {
    forall k | 0 <= k < j - i - 1
      ensures Depends(g, p[i..j][k], p[i..j][k + 1])
    {
      assert Depends(g, p[i + k], p[i + k + 1]);
    }
  }

  lemma Missing(a: set<string>, b: set<string>) returns (x: string)
    requires a < b
    ensures x in b && x !in a
  {
    assert !(b <= a);
    x :| x in b && x !in a;
  }

  /** If nothing is ready although something is left, dependencies run in a circle. */
  lemma StuckMeansCycle(g: Graph, completed: set<string>) returns (c: seq<string>)
    requires NoMissing(g) && completed < g.nodes.Keys && ReadyIds(g, completed) == {}
    ensures IsCycle(g, c)
  {
    hide Depends, DependsWithin, ReadyIds, NoMissing;
    var left := g.nodes.Keys - completed;
    forall n | n in left
      ensures DependsWithin(g, left, n)
    {
      NotReady(g, completed, n);
    }
    var a := Missing(completed, g.nodes.Keys);
    var p := LongPath(g, left, a, |left|);
    var i, j := Pigeonhole(p, left);
    SubPath(g, p, i, j + 1);
    c := p[i..j + 1];
  }

  lemma NotReady(g: Graph, completed: set<string>, n: string)
    requires NoMissing(g) && n in g.nodes && n !in completed && n !in ReadyIds(g, completed)
    ensures DependsWithin(g, g.nodes.Keys - completed, n)
  {
    var d :| d in g.nodes[n].dependsOn && d !in completed;
    assert Depends(g, n, d);
  }

  lemma {:induction false} CompletedIsKnown(g: Graph, k: nat)
    ensures Completed(g, k) <= g.nodes.Keys
  {
    if k != 0 {
      CompletedIsKnown(g, k - 1);
    }
  }

  /** Every round completes at least one more node until all are. */
  lemma {:induction false} RoundsProgress(g: Graph, k: nat)
    requires NoMissing(g) && Acyclic(g)
    ensures Completed(g, k) == g.nodes.Keys || |Completed(g, k)| >= k
  {
    hide ReadyIds, Acyclic, NoMissing;
    if k != 0 {
      var before := Completed(g, k - 1);
      RoundsProgress(g, k - 1);
      CompletedIsKnown(g, k - 1);
      CompletedIsKnown(g, k);
      if before != g.nodes.Keys {
        var n := SomeReady(g, before);
        SmallerSet(before + {n}, Completed(g, k));
      }
    }
  }

  lemma SomeReady(g: Graph, completed: set<string>) returns (n: string)
    requires NoMissing(g) && Acyclic(g) && completed < g.nodes.Keys
    ensures n in ReadyIds(g, completed) && n !in completed
  {
    if ReadyIds(g, completed) == {} {
      var c := StuckMeansCycle(g, completed);
      assert false;
    }
    n :| n in ReadyIds(g, completed);
  }

  lemma SmallerSet(a: set<string>, b: set<string>)
    requires a <= b
    ensures |a| <= |b|
  {
    assert b == a + (b - a);
  }

  lemma FullSet(a: set<string>, b: set<string>)
    requires a <= b && |a| >= |b|
    ensures a == b
  {
    assert b == a + (b - a);
  }

  /** Whatever the number of rounds, completing everything means that the graph is valid. */
  lemma CompletionMeansValid(g: Graph, k: nat)
    requires Completed(g, k) == g.nodes.Keys
    ensures NoMissing(g) && Acyclic(g)
  {
    forall a, b | Depends(g, a, b)
      ensures b in g.nodes
    {
      DependenciesFirst(g, k, a);
      CompletedIsKnown(g, k - 1);
    }
    forall p
      ensures !IsCycle(g, p)
    {
      if IsCycle(g, p) {
        assert Depends(g, p[0], p[1]);
        CycleNeverCompletes(g, k, p);
      }
    }
  }

  /**
   Validity is schedulability: dependencies are all present and acyclic exactly when adding what is
   ready, from nothing, completes every node within as many rounds as there are nodes.
   */
  lemma SchedulerEquivalence(g: Graph)
    ensures NoMissing(g) && Acyclic(g) <==> Completed(g, |g.nodes|) == g.nodes.Keys
  {
    var k := |g.nodes|;
    CompletedIsKnown(g, k);
    if NoMissing(g) && Acyclic(g) {
      RoundsProgress(g, k);
      assert |g.nodes.Keys| == k;
      FullSet(Completed(g, k), g.nodes.Keys);
    }
    if Completed(g, k) == g.nodes.Keys {
      CompletionMeansValid(g, k);
    }
  }

  /** Once nothing is ready, the scheduler stays where it is; it is done exactly if the graph is valid. */
  lemma {:induction false} Stopped(g: Graph, k: nat, more: nat)
    requires ReadyIds(g, Completed(g, k)) == {}
    ensures Completed(g, k + more) == Completed(g, k)
    decreases more
  {
    if more != 0 {
      Stopped(g, k, more - 1);
    }
  }

  lemma StoppedVerdict(g: Graph, k: nat)
    requires ReadyIds(g, Completed(g, k)) == {}
    ensures Completed(g, k) == g.nodes.Keys <==> NoMissing(g) && Acyclic(g)
  {
    hide ReadyIds, NoMissing, Acyclic, Completed;
    CompletedIsKnown(g, k);
    if Completed(g, k) == g.nodes.Keys {
      CompletionMeansValid(g, k);
    } else if NoMissing(g) && Acyclic(g) {
      var n := SomeReady(g, Completed(g, k));
    }
  }
}

/** The depth-first search of TaskGraph.validate as a function, and what its reports mean. */
module TaskSearches {
  import opened TaskGraphs

  /** What a search has produced: the nodes finished, and the nodes met again while being visited. */
  datatype Trace = Trace(finished: seq<string>, cycles: seq<string>)

  const NO_TRACE := Trace([], [])

  ghost function Unseen(g: Graph, visiting: set<string>, t: Trace): set<string>
  {
    set k | k in g.nodes && k !in visiting && k !in t.finished
  }

  /** The search from one node, below the nodes being visited. */
  ghost function Visit(g: Graph, id: string, visiting: set<string>, t: Trace): (r: Trace)
    ensures t.finished <= r.finished && t.cycles <= r.cycles
    decreases Unseen(g, visiting, t), 0
  {
    if id in visiting then t.(cycles := t.cycles + [id])
    else if id in t.finished || id !in g.nodes then t
    else
      assert id in Unseen(g, visiting, t) && id !in Unseen(g, visiting + {id}, t);
      var below := VisitAll(g, g.nodes[id].dependsOn, visiting + {id}, t);
      below.(finished := below.finished + [id])
  }

  /** The search from several nodes in a row. */
  ghost function VisitAll(g: Graph, ids: seq<string>, visiting: set<string>, t: Trace): (r: Trace)
    ensures t.finished <= r.finished && t.cycles <= r.cycles
    decreases Unseen(g, visiting, t), |ids| + 1
  {
    if ids == [] then t
    else
      var earlier := VisitAll(g, ids[..|ids| - 1], visiting, t);
      assert Unseen(g, visiting, earlier) <= Unseen(g, visiting, t);
      Visit(g, ids[|ids| - 1], visiting, earlier)
  }

  lemma VisitSnoc(g: Graph, ids: seq<string>, id: string, visiting: set<string>, t: Trace)
    ensures VisitAll(g, ids + [id], visiting, t) == Visit(g, id, visiting, VisitAll(g, ids, visiting, t))
  {
    hide Visit;
    assert (ids + [id])[..|ids|] == ids;
  }

  // ---- Reports are the dependency entries against the order ----

  /** The entries of a list that belong to a set. */
  function Among(list: seq<string>, s: set<string>): seq<string>
  {
    if list == [] then []
    else Among(list[..|list| - 1], s) + (if list[|list| - 1] in s then [list[|list| - 1]] else [])
  }

  function Own(id: string, visiting: set<string>): multiset<string>
  {
    if id in visiting then multiset{id} else multiset{}
  }

  lemma AmongSnoc(list: seq<string>, d: string, s: set<string>)
    ensures multiset(Among(list + [d], s)) == multiset(Among(list, s)) + Own(d, s)
  {
    assert (list + [d])[..|list|] == list;
  }

  /** Finished nodes are known, distinct and no longer being visited. */
  ghost predicate Sound(g: Graph, visiting: set<string>, t: Trace)
  {
    && visiting <= g.nodes.Keys && Distinct(t.finished)
    && forall k :: k in t.finished ==> k in g.nodes && k !in visiting
  }

  /** Every known entry of a list is finished or being visited. */
  ghost predicate Met(g: Graph, ids: seq<string>, visiting: set<string>, t: Trace)
  {
    forall d :: d in ids && d in g.nodes ==> d in t.finished || d in visiting
  }

  /** The new reports are the new backward entries, and `own`. */
  ghost predicate Balanced(g: Graph, before: Trace, after: Trace, own: multiset<string>)
  {
    multiset(after.cycles) + multiset(Backward(g, before.finished))
    == multiset(before.cycles) + multiset(Backward(g, after.finished)) + own
  }

  lemma BalancedTwice(g: Graph, a: Trace, b: Trace, c: Trace, own: multiset<string>, own': multiset<string>)
    requires Balanced(g, a, b, own) && Balanced(g, b, c, own')
    ensures Balanced(g, a, c, own + own')
  {
    hide Backward;
    var (ba, bb, bc) := (multiset(Backward(g, a.finished)), multiset(Backward(g, b.finished)),
                         multiset(Backward(g, c.finished)));
    var (ca, cb, cc) := (multiset(a.cycles), multiset(b.cycles), multiset(c.cycles));
    forall x
      ensures (cc + ba)[x] == (ca + bc + (own + own'))[x]
    {
      assert (cb + ba)[x] == (ca + bb + own)[x] && (cc + bb)[x] == (cb + bc + own')[x];
    }
  }

  /** At the end of a node, its dependencies still being visited are those that run against the order. */
  lemma {:induction false} VisitingIsLate(g: Graph, dependencies: seq<string>, visiting: set<string>, t: Trace)
    requires Sound(g, visiting, t) && Met(g, dependencies, visiting, t)
    ensures LateEntries(g, dependencies, t.finished) == Among(dependencies, visiting)
  {
    if dependencies != [] {
      var front := dependencies[..|dependencies| - 1];
      assert dependencies == front + [dependencies[|dependencies| - 1]];
      VisitingIsLate(g, front, visiting, t);
    }
  }

  lemma {:induction false} VisitKeeps(g: Graph, id: string, visiting: set<string>, t: Trace)
    requires Sound(g, visiting, t)
    ensures var r := Visit(g, id, visiting, t);
            Sound(g, visiting, r) && Met(g, [id], visiting, r) && Balanced(g, t, r, Own(id, visiting))
    decreases Unseen(g, visiting, t), 0
  {
    hide Backward, LateEntries, VisitAll, Among;
    if id !in visiting && id !in t.finished && id in g.nodes {
      var deps := g.nodes[id].dependsOn;
      assert id in Unseen(g, visiting, t) && id !in Unseen(g, visiting + {id}, t);
      VisitAllKeeps(g, deps, visiting + {id}, t);
      FinishKeeps(g, id, visiting, t, VisitAll(g, deps, visiting + {id}, t));
    }
  }

  /** The end of a node turns its pending reports into backward entries. */
  lemma FinishKeeps(g: Graph, id: string, visiting: set<string>, t: Trace, below: Trace)
    requires id in g.nodes && id !in visiting && Sound(g, visiting + {id}, below)
    requires Met(g, g.nodes[id].dependsOn, visiting + {id}, below)
    requires Balanced(g, t, below, multiset(Among(g.nodes[id].dependsOn, visiting + {id})))
    ensures var r := below.(finished := below.finished + [id]);
            Sound(g, visiting, r) && Balanced(g, t, r, multiset{})
  {
    hide LateEntries, Among;
    var deps := g.nodes[id].dependsOn;
    VisitingIsLate(g, deps, visiting + {id}, below);
    assert (below.finished + [id])[..|below.finished|] == below.finished;
    var late := LateEntries(g, deps, below.finished);
    assert Backward(g, below.finished + [id]) == Backward(g, below.finished) + late;
  }

  lemma {:induction false} VisitAllKeeps(g: Graph, ids: seq<string>, visiting: set<string>, t: Trace)
    requires Sound(g, visiting, t)
    ensures var r := VisitAll(g, ids, visiting, t);
            Sound(g, visiting, r) && Met(g, ids, visiting, r) && Balanced(g, t, r, multiset(Among(ids, visiting)))
    decreases Unseen(g, visiting, t), |ids| + 1
  {
    hide Backward, Visit, Balanced, Among, Sound, Own;
    if ids == [] {
      NothingVisited(g, visiting, t);
    } else {
      var (front, id) := (ids[..|ids| - 1], ids[|ids| - 1]);
      assert ids == front + [id];
      var earlier := VisitAll(g, front, visiting, t);
      VisitAllKeeps(g, front, visiting, t);
      assert Unseen(g, visiting, earlier) <= Unseen(g, visiting, t);
      VisitKeeps(g, id, visiting, earlier);
      BalancedTwice(g, t, earlier, Visit(g, id, visiting, earlier), multiset(Among(front, visiting)),
                    Own(id, visiting));
      AmongSnoc(front, id, visiting);
    }
  }

  lemma NothingVisited(g: Graph, visiting: set<string>, t: Trace)
    ensures VisitAll(g, [], visiting, t) == t && Balanced(g, t, t, multiset(Among([], visiting)))
  {
  }

  // ---- Reported nodes lie on cycles ----

  ghost predicate AllOnCycles(g: Graph, nodes: seq<string>)
  {
    forall i :: 0 <= i < |nodes| ==> OnCycle(g, nodes[i])
  }

  /** The nodes being visited form a chain of dependencies that leads to each of the next nodes. */
  ghost predicate Chain(g: Graph, stack: seq<string>, visiting: set<string>, ids: seq<string>)
  {
    && (forall k :: k in stack <==> k in visiting)
    && forall i :: 0 <= i < |ids| ==> IsPath(g, stack + [ids[i]])
  }

  /** A node met again on the stack lies on a cycle. */
  lemma StackCloses(g: Graph, stack: seq<string>, id: string)
    requires id in stack && IsPath(g, stack + [id])
    ensures OnCycle(g, id)
  {
    var p := stack + [id];
    var i :| 0 <= i < |stack| && stack[i] == id;
    SubPath(g, p, i, |p|);
    assert IsCycle(g, p[i..|p|]);
  }

  lemma StackExtends(g: Graph, stack: seq<string>, visiting: set<string>, id: string)
    requires Chain(g, stack, visiting, [id]) && id in g.nodes
    ensures Chain(g, stack + [id], visiting + {id}, g.nodes[id].dependsOn)
  {
    var p := stack + [id];
    var deps := g.nodes[id].dependsOn;
    assert [id][0] == id;
    assert IsPath(g, p);
    forall j | 0 <= j < |deps|
      ensures IsPath(g, p + [deps[j]])
    {
      forall i | 0 <= i < |p|
        ensures Depends(g, (p + [deps[j]])[i], (p + [deps[j]])[i + 1])
      {
        if i < |stack| {
          assert Depends(g, p[i], p[i + 1]);
        }
      }
    }
  }

  lemma {:induction false} VisitFindsCycles(g: Graph, id: string, stack: seq<string>, visiting: set<string>, t: Trace)
    requires Chain(g, stack, visiting, [id]) && AllOnCycles(g, t.cycles)
    ensures AllOnCycles(g, Visit(g, id, visiting, t).cycles)
    decreases Unseen(g, visiting, t), 0
  {
    hide OnCycle, IsPath, VisitAll;
    assert IsPath(g, stack + [[id][0]]);
    if id in visiting {
      StackCloses(g, stack, id);
    } else if id !in t.finished && id in g.nodes {
      assert id in Unseen(g, visiting, t) && id !in Unseen(g, visiting + {id}, t);
      StackExtends(g, stack, visiting, id);
      VisitAllFindsCycles(g, g.nodes[id].dependsOn, stack + [id], visiting + {id}, t);
    }
  }

  lemma {:induction false} VisitAllFindsCycles(g: Graph, ids: seq<string>, stack: seq<string>, visiting: set<string>,
                                               t: Trace)
    requires Chain(g, stack, visiting, ids) && AllOnCycles(g, t.cycles)
    ensures AllOnCycles(g, VisitAll(g, ids, visiting, t).cycles)
    decreases Unseen(g, visiting, t), |ids| + 1
  {
    hide OnCycle, IsPath, Visit;
    if ids != [] {
      var (front, id) := (ids[..|ids| - 1], ids[|ids| - 1]);
      var earlier := VisitAll(g, front, visiting, t);
      VisitAllFindsCycles(g, front, stack, visiting, t);
      assert Unseen(g, visiting, earlier) <= Unseen(g, visiting, t);
      VisitFindsCycles(g, id, stack, visiting, earlier);
    }
  }

  // ---- What a visit finishes, and in which order ----

  /** A path of known nodes from `a` to `b` that keeps clear of some nodes. */
  ghost predicate PathAround(g: Graph, avoid: set<string>, a: string, b: string, p: seq<string>)
  {
    && IsPath(g, p) && p[0] == a && p[|p| - 1] == b
    && forall k :: 0 <= k < |p| ==> p[k] in g.nodes && p[k] !in avoid
  }

  ghost predicate Reaches(g: Graph, avoid: set<string>, a: string, b: string)
  {
    exists p :: PathAround(g, avoid, a, b, p)
  }

  /** Nodes being visited or finished: a search goes around them. */
  ghost function Seen(visiting: set<string>, t: Trace): set<string>
  {
    visiting + set k | k in t.finished
  }

  ghost predicate Before(f: seq<string>, x: string, y: string)
  {
    exists a, b :: 0 <= a < b < |f| && f[a] == x && f[b] == y
  }

  lemma ReachesSelf(g: Graph, avoid: set<string>, a: string)
    requires a in g.nodes && a !in avoid
    ensures Reaches(g, avoid, a, a)
  {
    assert PathAround(g, avoid, a, a, [a]);
  }

  /** A dependency's path can be entered from its dependent. */
  lemma ReachesFrom(g: Graph, avoid: set<string>, a: string, d: string, b: string)
    requires Depends(g, a, d) && a !in avoid && Reaches(g, avoid + {a}, d, b)
    ensures Reaches(g, avoid, a, b)
  {
    var p :| PathAround(g, avoid + {a}, d, b, p);
    var q := [a] + p;
    forall k | 0 <= k < |q| - 1
      ensures Depends(g, q[k], q[k + 1])
    {
      if k > 0 {
        assert Depends(g, p[k - 1], p[k]);
      }
    }
    assert PathAround(g, avoid, a, b, q);
  }

  lemma ReachesMore(g: Graph, avoid: set<string>, more: set<string>, a: string, b: string)
    requires avoid <= more && Reaches(g, more, a, b)
    ensures Reaches(g, avoid, a, b)
  {
    var p :| PathAround(g, more, a, b, p);
    assert PathAround(g, avoid, a, b, p);
  }

  ghost predicate ReachedFromSome(g: Graph, avoid: set<string>, ids: seq<string>, x: string)
  {
    exists k :: 0 <= k < |ids| && Reaches(g, avoid, ids[k], x)
  }

  /** Only what can be reached around the nodes seen before is finished. */
  lemma {:induction false} VisitReaches(g: Graph, id: string, visiting: set<string>, t: Trace, x: string)
    requires x in Visit(g, id, visiting, t).finished && x !in t.finished && Sound(g, visiting, t)
    ensures Reaches(g, Seen(visiting, t), id, x)
    decreases Unseen(g, visiting, t), 0
  {
    hide Reaches, VisitAll;
    assert id !in visiting && id !in t.finished && id in g.nodes;
    if x == id {
      ReachesSelf(g, Seen(visiting, t), id);
    } else {
      var deps := g.nodes[id].dependsOn;
      assert id in Unseen(g, visiting, t) && id !in Unseen(g, visiting + {id}, t);
      VisitAllReaches(g, deps, visiting + {id}, t, x);
      var k :| 0 <= k < |deps| && Reaches(g, Seen(visiting + {id}, t), deps[k], x);
      assert Seen(visiting + {id}, t) == Seen(visiting, t) + {id};
      ReachesFrom(g, Seen(visiting, t), id, deps[k], x);
    }
  }

  lemma {:induction false} VisitAllReaches(g: Graph, ids: seq<string>, visiting: set<string>, t: Trace, x: string)
    requires x in VisitAll(g, ids, visiting, t).finished && x !in t.finished && Sound(g, visiting, t)
    ensures ReachedFromSome(g, Seen(visiting, t), ids, x)
    decreases Unseen(g, visiting, t), |ids| + 1
  {
    hide Reaches, Visit, Sound;
    var (front, id) := (ids[..|ids| - 1], ids[|ids| - 1]);
    var earlier := VisitAll(g, front, visiting, t);
    assert Unseen(g, visiting, earlier) <= Unseen(g, visiting, t);
    if x in earlier.finished {
      VisitAllReaches(g, front, visiting, t, x);
      var k :| 0 <= k < |front| && Reaches(g, Seen(visiting, t), front[k], x);
      assert ids[k] == front[k];
    } else {
      VisitAllKeeps(g, front, visiting, t);
      VisitReaches(g, id, visiting, earlier, x);
      ReachesMore(g, Seen(visiting, t), Seen(visiting, earlier), id, x);
    }
  }

  /** The known dependencies of the newly finished nodes are finished or being visited. */
  ghost predicate Closed(g: Graph, visiting: set<string>, before: Trace, after: Trace)
  {
    forall n :: n in after.finished && n !in before.finished && n in g.nodes ==>
                  Met(g, g.nodes[n].dependsOn, visiting, after)
  }

  lemma {:induction false} VisitCloses(g: Graph, id: string, visiting: set<string>, t: Trace)
    requires Sound(g, visiting, t)
    ensures Closed(g, visiting, t, Visit(g, id, visiting, t))
    decreases Unseen(g, visiting, t), 0
  {
    hide VisitAll, Sound, Balanced;
    if id !in visiting && id !in t.finished && id in g.nodes {
      var deps := g.nodes[id].dependsOn;
      assert id in Unseen(g, visiting, t) && id !in Unseen(g, visiting + {id}, t);
      SoundBelow(g, visiting, t, id);
      VisitAllKeeps(g, deps, visiting + {id}, t);
      VisitAllCloses(g, deps, visiting + {id}, t);
    }
  }

  lemma SoundBelow(g: Graph, visiting: set<string>, t: Trace, id: string)
    requires Sound(g, visiting, t) && id in g.nodes && id !in t.finished
    ensures Sound(g, visiting + {id}, t)
  {
  }

  lemma {:induction false} VisitAllCloses(g: Graph, ids: seq<string>, visiting: set<string>, t: Trace)
    requires Sound(g, visiting, t)
    ensures Closed(g, visiting, t, VisitAll(g, ids, visiting, t))
    decreases Unseen(g, visiting, t), |ids| + 1
  {
    hide Visit, Sound, Balanced;
    if ids != [] {
      var (front, id) := (ids[..|ids| - 1], ids[|ids| - 1]);
      var earlier := VisitAll(g, front, visiting, t);
      VisitAllKeeps(g, front, visiting, t);
      VisitAllCloses(g, front, visiting, t);
      assert Unseen(g, visiting, earlier) <= Unseen(g, visiting, t);
      VisitCloses(g, id, visiting, earlier);
    }
  }

  /** Everything that can be reached from a finished node around the nodes seen before is finished. */
  lemma {:induction false} ReachedIsFinished(g: Graph, visiting: set<string>, before: Trace, after: Trace, a: string,
                                             p: seq<string>, x: string)
    requires Closed(g, visiting, before, after) && a in after.finished
    requires PathAround(g, Seen(visiting, before), a, x, p)
    ensures x in after.finished
    decreases |p|
  {
    if |p| > 1 {
      assert Depends(g, p[0], p[1]);
      var q := p[1..];
      forall k | 0 <= k < |q| - 1
        ensures Depends(g, q[k], q[k + 1])
      {
        assert Depends(g, p[k + 1], p[k + 2]);
      }
      ReachedIsFinished(g, visiting, before, after, p[1], q, x);
    }
  }

  /** So a search from several nodes finishes exactly what can be reached from one of them. */
  lemma VisitAllFinishes(g: Graph, ids: seq<string>, visiting: set<string>, t: Trace, x: string)
    requires Sound(g, visiting, t) && x !in t.finished
    ensures x in VisitAll(g, ids, visiting, t).finished <==> ReachedFromSome(g, Seen(visiting, t), ids, x)
  {
    hide VisitAll, Closed, Balanced;
    var r := VisitAll(g, ids, visiting, t);
    if x in r.finished {
      VisitAllReaches(g, ids, visiting, t, x);
    }
    if ReachedFromSome(g, Seen(visiting, t), ids, x) {
      var k :| 0 <= k < |ids| && Reaches(g, Seen(visiting, t), ids[k], x);
      var p :| PathAround(g, Seen(visiting, t), ids[k], x, p);
      assert p[0] in g.nodes && p[0] !in visiting;
      VisitAllKeeps(g, ids, visiting, t);
      VisitAllCloses(g, ids, visiting, t);
      ReachedIsFinished(g, visiting, t, r, ids[k], p, x);
    }
  }

  lemma {:induction false} VisitAllExtends(g: Graph, ids: seq<string>, j: nat, visiting: set<string>, t: Trace)
    requires j <= |ids|
    ensures VisitAll(g, ids[..j], visiting, t).finished <= VisitAll(g, ids, visiting, t).finished
    ensures VisitAll(g, ids[..j], visiting, t).cycles <= VisitAll(g, ids, visiting, t).cycles
    decreases |ids|
  {
    hide Visit;
    if j == |ids| {
      assert ids[..j] == ids;
    } else {
      assert ids[..|ids| - 1][..j] == ids[..j];
      VisitAllExtends(g, ids[..|ids| - 1], j, visiting, t);
    }
  }

  /** What an earlier node of the list leads to finishes before what only a later one leads to. */
  lemma ListOrder(g: Graph, ids: seq<string>, visiting: set<string>, t: Trace, i: nat, j: nat, x: string, y: string)
    requires Sound(g, visiting, t) && i < j < |ids|
    requires Reaches(g, Seen(visiting, t), ids[i], x) && Reaches(g, Seen(visiting, t), ids[j], y)
    requires forall k :: 0 <= k < j ==> !Reaches(g, Seen(visiting, t), ids[k], y)
    ensures Before(VisitAll(g, ids, visiting, t).finished, x, y)
  {
    hide VisitAll, Reaches, Sound, Before;
    var (early, all) := (VisitAll(g, ids[..j], visiting, t), VisitAll(g, ids, visiting, t));
    NotSeen(g, visiting, t, ids[i], x);
    NotSeen(g, visiting, t, ids[j], y);
    assert ids[..j][i] == ids[i];
    VisitAllFinishes(g, ids[..j], visiting, t, x);
    VisitAllFinishes(g, ids[..j], visiting, t, y);
    VisitAllFinishes(g, ids, visiting, t, y);
    VisitAllExtends(g, ids, j, visiting, t);
    InPrefix(early.finished, all.finished, x, y);
  }

  lemma InPrefix(early: seq<string>, all: seq<string>, x: string, y: string)
    requires early <= all && x in early && y !in early && y in all
    ensures Before(all, x, y)
  {
    var a :| 0 <= a < |early| && early[a] == x;
    var b :| 0 <= b < |all| && all[b] == y;
    assert all == early + all[|early|..];
    assert all[a] == x && b >= |early|;
  }

  lemma BeforeLast(early: seq<string>, all: seq<string>, x: string, y: string)
    requires early <= all && x in early && x != y && early[|early| - 1] == y
    ensures Before(all, x, y)
  {
    var a :| 0 <= a < |early| && early[a] == x;
    assert all[a] == x && all[|early| - 1] == y;
  }

  lemma NotSeen(g: Graph, visiting: set<string>, t: Trace, a: string, x: string)
    requires Reaches(g, Seen(visiting, t), a, x)
    ensures x !in t.finished && x in g.nodes
  {
    var p :| PathAround(g, Seen(visiting, t), a, x, p);
  }

  /**
   The order below one node: it finishes last, and what an earlier dependency leads to (around the node
   and all nodes seen before) finishes before what only a later dependency leads to.
   */
  lemma DependenciesInOrder(g: Graph, id: string, visiting: set<string>, t: Trace, i: nat, j: nat, x: string, y: string)
    requires Sound(g, visiting, t) && id in g.nodes && id !in visiting && id !in t.finished
    requires i < j < |g.nodes[id].dependsOn|
    requires Reaches(g, Seen(visiting, t) + {id}, g.nodes[id].dependsOn[i], x)
    requires Reaches(g, Seen(visiting, t) + {id}, g.nodes[id].dependsOn[j], y)
    requires forall k :: 0 <= k < j ==> !Reaches(g, Seen(visiting, t) + {id}, g.nodes[id].dependsOn[k], y)
    ensures Before(Visit(g, id, visiting, t).finished, x, y)
    ensures var f := Visit(g, id, visiting, t).finished; f != [] && f[|f| - 1] == id
  {
    hide VisitAll, Reaches, Sound;
    var deps := g.nodes[id].dependsOn;
    assert Seen(visiting + {id}, t) == Seen(visiting, t) + {id};
    SoundBelow(g, visiting, t, id);
    ListOrder(g, deps, visiting + {id}, t, i, j, x, y);
    var below := VisitAll(g, deps, visiting + {id}, t).finished;
    var a, b :| 0 <= a < b < |below| && below[a] == x && below[b] == y;
    var f := Visit(g, id, visiting, t).finished;
    assert f == below + [id];
    assert f[a] == x && f[b] == y;
  }

  // ---- The search from every node ----

  /** The search over the nodes in insertion order. */
  ghost function Search(g: Graph): Trace
  {
    VisitAll(g, g.order, {}, NO_TRACE)
  }

  /**
   The search finishes every node once. Its reports are, entry by entry, the dependencies that run
   against the order in which nodes finish; every reported node lies on a cycle, and every cycle has a
   reported node.
   */
  lemma SearchMeans(g: Graph)
    requires g.Valid()
    ensures var t := Search(g);
            && Distinct(t.finished) && (forall k :: k in t.finished <==> k in g.nodes)
            && multiset(t.cycles) == multiset(Backward(g, t.finished))
            && AllOnCycles(g, t.cycles)
            && forall p :: IsCycle(g, p) ==> exists k :: 0 <= k < |p| && p[k] in t.cycles
  {
    hide Visit, VisitAll, Backward, Among, IsCycle, OnCycle;
    var t := Search(g);
    VisitAllKeeps(g, g.order, {}, NO_TRACE);
    NoneAmong(g.order);
    assert multiset(Among(g.order, {})) == multiset{};
    BalancedFromNothing(g, t);
    forall i | 0 <= i < |g.order|
      ensures IsPath(g, [] + [g.order[i]])
    {
    }
    VisitAllFindsCycles(g, g.order, [], {}, NO_TRACE);
    forall p | IsCycle(g, p)
      ensures exists k :: 0 <= k < |p| && p[k] in t.cycles
    {
      CyclesRunBackward(g, t.finished, p);
      var k :| 0 <= k < |p| && p[k] in Backward(g, t.finished);
      assert p[k] in multiset(t.cycles);
    }
  }

  /**
   The order of the whole search. Whatever can be reached from a node and from none that was added
   before it finishes before that node; and what an earlier added node leads to finishes before what
   only a later added one leads to.
   */
  lemma RootsInOrder(g: Graph, j: nat, y: string)
    requires g.Valid() && j < |g.order| && Reaches(g, {}, g.order[j], y)
    requires forall k :: 0 <= k < j ==> !Reaches(g, {}, g.order[k], y)
    ensures y != g.order[j] ==> Before(Search(g).finished, y, g.order[j])
    ensures forall i, x :: 0 <= i < j && Reaches(g, {}, g.order[i], x) ==> Before(Search(g).finished, x, y)
  {
    hide Visit, VisitAll, Reaches, Before;
    assert Seen({}, NO_TRACE) == {};
    forall i, x | 0 <= i < j && Reaches(g, {}, g.order[i], x)
      ensures Before(Search(g).finished, x, y)
    {
      ListOrder(g, g.order, {}, NO_TRACE, i, j, x, y);
    }
    if y != g.order[j] {
      RootIsLast(g, j, y);
    }
  }

  lemma RootIsLast(g: Graph, j: nat, y: string)
    requires g.Valid() && j < |g.order| && Reaches(g, {}, g.order[j], y) && y != g.order[j]
    requires forall k :: 0 <= k < j ==> !Reaches(g, {}, g.order[k], y)
    ensures Before(Search(g).finished, y, g.order[j])
  {
    hide Visit, VisitAll, Reaches, Before, Balanced, Met;
    var id := g.order[j];
    var early := VisitAll(g, g.order[..j], {}, NO_TRACE);
    assert Seen({}, NO_TRACE) == {};
    VisitAllKeeps(g, g.order[..j], {}, NO_TRACE);
    forall k | 0 <= k < j
      ensures !Reaches(g, {}, g.order[k], id)
    {
      if Reaches(g, {}, g.order[k], id) {
        ReachesThrough(g, g.order[k], id, y);
      }
    }
    VisitAllFinishes(g, g.order[..j], {}, NO_TRACE, id);
    VisitAllFinishes(g, g.order[..j + 1], {}, NO_TRACE, y);
    assert g.order[..j + 1][j] == id;
    assert g.order[..j + 1] == g.order[..j] + [id];
    VisitSnoc(g, g.order[..j], id, {}, NO_TRACE);
    OwnIsLast(g, id, {}, early);
    VisitAllExtends(g, g.order, j + 1, {}, NO_TRACE);
    BeforeLast(Visit(g, id, {}, early).finished, Search(g).finished, y, id);
  }

  lemma OwnIsLast(g: Graph, id: string, visiting: set<string>, t: Trace)
    requires id in g.nodes && id !in visiting && id !in t.finished
    ensures var f := Visit(g, id, visiting, t).finished; f != [] && f[|f| - 1] == id
  {
    hide VisitAll;
  }

  lemma ReachesThrough(g: Graph, a: string, b: string, c: string)
    requires Reaches(g, {}, a, b) && Reaches(g, {}, b, c)
    ensures Reaches(g, {}, a, c)
  {
    var p :| PathAround(g, {}, a, b, p);
    var q :| PathAround(g, {}, b, c, q);
    var r := p + q[1..];
    forall k | 0 <= k < |r| - 1
      ensures Depends(g, r[k], r[k + 1])
    {
      if k < |p| - 1 {
        assert Depends(g, p[k], p[k + 1]);
      } else {
        assert Depends(g, q[k - (|p| - 1)], q[k - (|p| - 1) + 1]);
      }
    }
    assert PathAround(g, {}, a, c, r);
  }

  lemma BalancedFromNothing(g: Graph, t: Trace)
    requires Balanced(g, NO_TRACE, t, multiset{})
    ensures multiset(t.cycles) == multiset(Backward(g, t.finished))
  {
    hide Backward;
    NothingBackward(g);
    assert multiset(t.cycles) == multiset(t.cycles) + multiset(Backward(g, []));
  }

  lemma NothingBackward(g: Graph)
    ensures Backward(g, []) == []
  {
  }

  lemma {:induction false} NoneAmong(list: seq<string>)
    ensures Among(list, {}) == []
  {
    if list != [] {
      NoneAmong(list[..|list| - 1]);
    }
  }

  /** Nothing is reported exactly if there is no cycle, and then nodes finish in topological order. */
  lemma SearchDecides(g: Graph)
    requires g.Valid()
    ensures var t := Search(g);
            && (t.cycles == [] <==> Acyclic(g))
            && (t.cycles == [] <==> Topological(g, t.finished))
  {
    hide Search, Backward, Topological, IsCycle;
    SearchMeans(g);
    var t := Search(g);
    TopologicalIff(g, t.finished);
    if t.cycles == [] {
      assert |multiset(Backward(g, t.finished))| == 0;
    } else {
      assert OnCycle(g, t.cycles[0]);
      assert |multiset(t.cycles)| > 0;
    }
  }
}

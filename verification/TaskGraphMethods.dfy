/** TaskGraph.add, validate and ready as the source runs them. */
module TaskGraphMethods {
  import opened Wrappers
  import opened TaskGraphs
  import opened TaskSearches

  // ---- The missing-dependency pass ----

  /** Errors for the first `count` dependencies of a node, in order. */
  function MissingOf(g: Graph, node: TaskNode, count: nat): seq<GraphError>
    requires count <= |node.dependsOn|
  {
    if count == 0 then []
    else
      var dep := node.dependsOn[count - 1];
      MissingOf(g, node, count - 1) + (if dep in g.nodes then [] else [MissingDependency(node.nodeId, dep)])
  }

  /** Errors for the first `count` nodes, in order. */
  function MissingErrors(g: Graph, count: nat): seq<GraphError>
    requires g.Valid() && count <= |g.order|
  {
    if count == 0 then []
    else
      var node := g.nodes[g.order[count - 1]];
      MissingErrors(g, count - 1) + MissingOf(g, node, |node.dependsOn|)
  }

  lemma {:induction false} MissingOfContains(g: Graph, node: TaskNode, count: nat, e: GraphError)
    requires count <= |node.dependsOn|
    ensures e in MissingOf(g, node, count) <==>
            e.MissingDependency? && e.node == node.nodeId
            && e.dependency in node.dependsOn[..count] && e.dependency !in g.nodes
  {
    if count != 0 {
      MissingOfContains(g, node, count - 1, e);
      assert node.dependsOn[..count] == node.dependsOn[..count - 1] + [node.dependsOn[count - 1]];
    }
  }

  /** An error is listed exactly for each dependency of a known node that is not itself known. */
  lemma {:induction false} MissingErrorsContain(g: Graph, count: nat, e: GraphError)
    requires g.Valid() && count <= |g.order|
    ensures e in MissingErrors(g, count) <==>
            e.MissingDependency? && e.node in g.order[..count] && Depends(g, e.node, e.dependency)
            && e.dependency !in g.nodes
  {
    hide NoMissing, MissingOf;
    if count != 0 {
      var id := g.order[count - 1];
      var node := g.nodes[id];
      MissingErrorsContain(g, count - 1, e);
      MissingOfContains(g, node, |node.dependsOn|, e);
      assert node.nodeId == id;
      assert MissingErrors(g, count) == MissingErrors(g, count - 1) + MissingOf(g, node, |node.dependsOn|);
      assert node.dependsOn[..|node.dependsOn|] == node.dependsOn;
      assert g.order[..count] == g.order[..count - 1] + [id];
    }
  }

  /** A dependency entry: which node in insertion order, and which entry of its list. */
  datatype Place = Place(node: nat, entry: nat)

  ghost predicate Earlier(a: Place, b: Place)
  {
    a.node < b.node || (a.node == b.node && a.entry < b.entry)
  }

  ghost predicate MissingAt(g: Graph, p: Place, count: nat)
    requires g.Valid()
  {
    && p.node < count <= |g.order| && p.entry < |g.nodes[g.order[p.node]].dependsOn|
    && g.nodes[g.order[p.node]].dependsOn[p.entry] !in g.nodes
  }

  /** The places list the first `count` nodes' unknown dependencies, in order, one error each. */
  ghost predicate Placed(g: Graph, errors: seq<GraphError>, at: seq<Place>, count: nat)
    requires g.Valid()
  {
    && |at| == |errors|
    && (forall i, j :: 0 <= i < j < |at| ==> Earlier(at[i], at[j]))
    && (forall i :: 0 <= i < |at| ==>
                      && MissingAt(g, at[i], count)
                      && var id := g.order[at[i].node];
                      errors[i] == MissingDependency(id, g.nodes[id].dependsOn[at[i].entry]))
    && forall p: Place :: MissingAt(g, p, count) ==> p in at
  }

  /**
   The missing-dependency errors are, one each and in this order, the places of unknown dependencies:
   nodes in insertion order, dependencies in list order.
   */
  lemma {:induction false} MissingErrorsPlaced(g: Graph, count: nat) returns (at: seq<Place>)
    requires g.Valid() && count <= |g.order|
    ensures Placed(g, MissingErrors(g, count), at, count)
  {
    hide Placed, MissingOf;
    if count == 0 {
      at := [];
      NonePlaced(g);
    } else {
      var node := g.nodes[g.order[count - 1]];
      var before := MissingErrorsPlaced(g, count - 1);
      var here := MissingOfPlaced(g, node, |node.dependsOn|);
      at := before + seq(|here|, i requires 0 <= i < |here| => Place(count - 1, here[i]));
      PlacedNext(g, MissingErrors(g, count - 1), before, count - 1, here);
    }
  }

  lemma NonePlaced(g: Graph)
    requires g.Valid()
    ensures Placed(g, [], [], 0)
  {
  }

  lemma PlacedNext(g: Graph, errors: seq<GraphError>, before: seq<Place>, count: nat, here: seq<nat>)
    requires g.Valid() && count < |g.order| && Placed(g, errors, before, count)
    requires var node := g.nodes[g.order[count]];
             var more := MissingOf(g, node, |node.dependsOn|);
             && |here| == |more|
             && (forall i, j :: 0 <= i < j < |here| ==> here[i] < here[j])
             && (forall i :: 0 <= i < |here| ==>
                               && here[i] < |node.dependsOn| && node.dependsOn[here[i]] !in g.nodes
                               && more[i] == MissingDependency(node.nodeId, node.dependsOn[here[i]]))
             && forall k :: 0 <= k < |node.dependsOn| && node.dependsOn[k] !in g.nodes ==> k in here
    ensures var node := g.nodes[g.order[count]];
            Placed(g, errors + MissingOf(g, node, |node.dependsOn|),
                   before + seq(|here|, i requires 0 <= i < |here| => Place(count, here[i])), count + 1)
  {
    hide MissingOf;
    var there := seq(|here|, i requires 0 <= i < |here| => Place(count, here[i]));
    var at := before + there;
    forall i | 0 <= i < |before|
      ensures MissingAt(g, before[i], count + 1) && before[i].node < count
    {
      assert MissingAt(g, before[i], count);
    }
    forall p: Place | MissingAt(g, p, count + 1)
      ensures p in at
    {
      if p.node < count {
        assert MissingAt(g, p, count);
      } else {
        var i :| 0 <= i < |here| && here[i] == p.entry;
        assert there[i] == p;
      }
    }
  }

  lemma {:induction false} MissingOfPlaced(g: Graph, node: TaskNode, count: nat) returns (at: seq<nat>)
    requires count <= |node.dependsOn|
    ensures |at| == |MissingOf(g, node, count)|
    ensures forall i, j :: 0 <= i < j < |at| ==> at[i] < at[j]
    ensures forall i :: 0 <= i < |at| ==>
                          && at[i] < count && node.dependsOn[at[i]] !in g.nodes
                          && MissingOf(g, node, count)[i] == MissingDependency(node.nodeId, node.dependsOn[at[i]])
    ensures forall k :: 0 <= k < count && node.dependsOn[k] !in g.nodes ==> k in at
  {
    if count == 0 {
      at := [];
    } else {
      at := MissingOfPlaced(g, node, count - 1);
      if node.dependsOn[count - 1] !in g.nodes {
        at := at + [count - 1];
      }
    }
  }

  lemma MissingErrorsEmpty(g: Graph)
    requires g.Valid()
    ensures MissingErrors(g, |g.order|) == [] <==> NoMissing(g)
  {
    var errors := MissingErrors(g, |g.order|);
    assert g.order[..|g.order|] == g.order;
    if errors == [] {
      forall a, b | Depends(g, a, b)
        ensures b in g.nodes
      {
        MissingErrorsContain(g, |g.order|, MissingDependency(a, b));
      }
    }
    if NoMissing(g) && errors != [] {
      MissingErrorsContain(g, |g.order|, errors[0]);
    }
  }

  // ---- The depth-first search ----

  function Cycles(nodes: seq<string>): (r: seq<GraphError>)
    ensures |r| == |nodes|
  {
    seq(|nodes|, i requires 0 <= i < |nodes| => Cycle(nodes[i]))
  }

  /** The local variables of `validate` that the inner function `dfs` shares. */
  class SearchState {
    var visiting: set<string>
    var visited: set<string>
    var errors: seq<GraphError>
    /** The errors before the search, and what the search has done since. */
    ghost const initial: seq<GraphError>
    ghost var trace: Trace

    constructor (missing: seq<GraphError>)
      ensures visiting == {} && visited == {} && errors == initial == missing && trace == NO_TRACE
    {
      visiting, visited, errors := {}, {}, missing;
      initial := missing;
      trace := NO_TRACE;
    }

    ghost predicate Valid(g: Graph)
      reads this
    {
      && visiting <= g.nodes.Keys && visited <= g.nodes.Keys && visiting !! visited
      && (forall k :: k in trace.finished <==> k in visited)
      && errors == initial + Cycles(trace.cycles)
    }

    /** The inner function dfs. It terminates because the nodes in neither set strictly decrease. */
    method Dfs(g: Graph, nodeId: string)
      requires Valid(g)
      modifies this
      ensures Valid(g)
      ensures visiting == old(visiting) && old(visited) <= visited
      ensures trace == Visit(g, nodeId, visiting, old(trace))
      decreases g.nodes.Keys - visiting - visited
    {
      hide Visit, VisitAll;
      VisitIs(g, nodeId, visiting, trace);
      if nodeId in visiting {
        errors := errors + [Cycle(nodeId)];
        trace := trace.(cycles := trace.cycles + [nodeId]);
        return;
      }
      if nodeId in visited || nodeId !in g.nodes {
        return;
      }
      visiting := visiting + {nodeId};
      var deps := g.nodes[nodeId].dependsOn;
      var i := 0;
      while i < |deps|
        invariant 0 <= i <= |deps|
        invariant Valid(g)
        invariant visiting == old(visiting) + {nodeId} && old(visited) <= visited
        invariant trace == VisitAll(g, deps[..i], visiting, old(trace))
      {
        assert nodeId in g.nodes.Keys - old(visiting) - old(visited);
        VisitSnoc(g, deps[..i], deps[i], visiting, old(trace));
        Dfs(g, deps[i]);
        assert deps[..i + 1] == deps[..i] + [deps[i]];
        i := i + 1;
      }
      assert deps[..i] == deps;
      visiting := visiting - {nodeId};
      visited := visited + {nodeId};
      trace := trace.(finished := trace.finished + [nodeId]);
    }
  }

  lemma VisitIs(g: Graph, id: string, visiting: set<string>, t: Trace)
    ensures VisitAll(g, [], visiting, t) == t
    ensures id in visiting ==> Visit(g, id, visiting, t) == Trace(t.finished, t.cycles + [id])
    ensures id !in visiting && (id in t.finished || id !in g.nodes) ==> Visit(g, id, visiting, t) == t
    ensures id !in visiting && id !in t.finished && id in g.nodes ==>
              var below := VisitAll(g, g.nodes[id].dependsOn, visiting + {id}, t);
              Visit(g, id, visiting, t) == Trace(below.finished + [id], below.cycles)
    ensures VisitAll(g, [], visiting + {id}, t) == t
  {
    hide VisitAll;
    NothingVisited(g, visiting, t);
    NothingVisited(g, visiting + {id}, t);
  }

  // ---- The class ----

  class TaskGraph {
    var order: seq<string>
    var nodes: map<string, TaskNode>

    function View(): Graph
      reads this
    {
      Graph(order, nodes)
    }

    constructor ()
      ensures View() == Graph([], map[]) && View().Valid()
    {
      order, nodes := [], map[];
    }

    /** add: a node with a new id goes to the end; a duplicate raises and changes nothing. */
    method Add(node: TaskNode) returns (r: Result<()>)
      requires View().Valid()
      modifies this
      ensures View().Valid()
      ensures r.Ok? <==> node.nodeId !in old(nodes)
      ensures View() == if r.Ok? then Graph(old(order) + [node.nodeId], old(nodes)[node.nodeId := node])
                        else old(View())
    {
      if node.nodeId in nodes {
        return ValueError;
      }
      nodes := nodes[node.nodeId := node];
      order := order + [node.nodeId];
      r := Ok(());
    }

    /**
     validate: the errors are the missing dependencies in order, then a CYCLE error for each report of
     the search; `entered` is the order of entry into `visited`. The search names nodes on cycles only
     and misses no cycle, and the graph is valid exactly when the greedy scheduler completes it.
     */
    method Validate() returns (valid: bool, errors: seq<GraphError>, ghost entered: seq<string>)
      requires View().Valid()
      ensures valid <==> errors == []
      ensures errors == MissingErrors(View(), |order|) + Cycles(Search(View()).cycles)
      ensures entered == Search(View()).finished
      ensures forall j, y :: 0 <= j < |order| && Reaches(View(), {}, order[j], y) && y != order[j]
                             && (forall k :: 0 <= k < j ==> !Reaches(View(), {}, order[k], y)) ==>
                               Before(entered, y, order[j])
      ensures forall n :: Cycle(n) in errors ==> OnCycle(View(), n)
      ensures forall p :: IsCycle(View(), p) ==> exists k :: 0 <= k < |p| && Cycle(p[k]) in errors
      ensures Acyclic(View()) <==> Topological(View(), entered)
      ensures valid <==> NoMissing(View()) && Acyclic(View())
      ensures valid <==> Completed(View(), |nodes|) == nodes.Keys
    {
      hide Before, Reaches, Visit, VisitAll, OnCycle, MissingErrors, Acyclic, NoMissing, Completed, IsCycle,
        Topological;
      var g := Graph(order, nodes);
      var missing := ListMissing(g);
      var search := new SearchState(missing);
      var i := 0;
      NothingVisited(g, {}, NO_TRACE);
      while i < |g.order|
        invariant 0 <= i <= |g.order|
        invariant search.Valid(g) && search.visiting == {}
        invariant search.trace == VisitAll(g, g.order[..i], {}, NO_TRACE)
      {
        VisitSnoc(g, g.order[..i], g.order[i], {}, NO_TRACE);
        search.Dfs(g, g.order[i]);
        assert g.order[..i + 1] == g.order[..i] + [g.order[i]];
        i := i + 1;
      }
      assert g.order[..i] == g.order;
      errors := search.errors;
      entered := search.trace.finished;
      valid := errors == [];
      Conclude(g, errors);
    }

    /** The first two loops of validate. */
    method ListMissing(g: Graph) returns (errors: seq<GraphError>)
      requires g.Valid()
      ensures errors == MissingErrors(g, |g.order|)
    {
      errors := [];
      var i := 0;
      while i < |g.order|
        invariant 0 <= i <= |g.order| && errors == MissingErrors(g, i)
      {
        var node := g.nodes[g.order[i]];
        var j := 0;
        while j < |node.dependsOn|
          invariant 0 <= j <= |node.dependsOn| && errors == MissingErrors(g, i) + MissingOf(g, node, j)
        {
          var dep := node.dependsOn[j];
          if dep !in g.nodes {
            errors := errors + [MissingDependency(node.nodeId, dep)];
          }
          j := j + 1;
        }
        i := i + 1;
      }
    }

    /** ready: the nodes, in insertion order, that are not completed but whose dependencies all are. */
    function Ready(completed: set<string>): (r: seq<TaskNode>)
      requires View().Valid()
      reads this
      ensures Ids(r) == Select(order, ReadyIds(View(), completed))
      ensures forall n :: n in r ==> n.nodeId in nodes && nodes[n.nodeId] == n
      ensures (set id | id in Ids(r)) == ReadyIds(View(), completed)
      ensures forall i, j :: 0 <= i < j < |r| ==> Before(order, r[i].nodeId, r[j].nodeId)
      ensures forall id :: id in nodes ==>
                             (nodes[id] in r <==>
                              id !in completed && forall d :: d in nodes[id].dependsOn ==> d in completed)
    {
      ReadyMeans(View(), completed);
      ReadySelects(View(), completed, |order|);
      assert order[..|order|] == order;
      SelectKeeps(View(), ReadyIds(View(), completed));
      ReadyAmong(View(), completed, |order|)
    }

    /**
     Running the graph by its own ready query: complete what is ready until nothing is. Every round
     completes something, after all its dependencies; there are at most as many rounds as nodes, more
     rounds would add nothing, and everything is completed exactly if the graph is valid.
     */
    method Schedule() returns (rounds: seq<seq<TaskNode>>, completed: set<string>)
      requires View().Valid()
      ensures |rounds| <= |nodes|
      ensures forall k :: 0 <= k < |rounds| ==> IsRound(View(), k, rounds[k])
      ensures completed == Completed(View(), |rounds|)
      ensures forall m: nat :: m >= |rounds| ==> Completed(View(), m) == completed
      ensures completed == nodes.Keys <==> NoMissing(View()) && Acyclic(View())
    {
      hide Running, Frontier, Completed, NoMissing, Acyclic, Ids;
      var g := View();
      rounds, completed := [], {};
      RunningStart(g);
      var ready := Ready(completed);
      ReadyIsFrontier(completed);
      while ready != []
        invariant Running(g, rounds, completed) && Frontier(g, completed, ready)
        decreases |nodes| - |rounds|
      {
        RunningStep(g, rounds, completed, ready);
        rounds := rounds + [ready];
        completed := completed + (set id | id in Ids(ready));
        ready := Ready(completed);
        ReadyIsFrontier(completed);
      }
      RunningEnd(g, rounds, completed);
    }

    lemma ReadyIsFrontier(completed: set<string>)
      requires View().Valid()
      ensures Frontier(View(), completed, Ready(completed))
    {
    }
  }

  /** What `Ready` returns. */
  ghost predicate Frontier(g: Graph, completed: set<string>, ready: seq<TaskNode>)
  {
    && Ids(ready) == Select(g.order, ReadyIds(g, completed))
    && (set id | id in Ids(ready)) == ReadyIds(g, completed)
    && forall n :: n in ready ==> n.nodeId in g.nodes && g.nodes[n.nodeId] == n
  }

  /** The invariant of the scheduler. */
  ghost predicate Running(g: Graph, rounds: seq<seq<TaskNode>>, completed: set<string>)
  {
    && completed == Completed(g, |rounds|) && completed <= g.nodes.Keys && |rounds| <= |completed|
    && forall k :: 0 <= k < |rounds| ==> IsRound(g, k, rounds[k])
  }

  /** A nonempty round: what is ready after `k` rounds, in insertion order, with all dependencies completed before. */
  ghost predicate IsRound(g: Graph, k: nat, round: seq<TaskNode>)
  {
    && round != [] && Ids(round) == Select(g.order, ReadyIds(g, Completed(g, k)))
    && forall n, d :: n in round && d in n.dependsOn ==> d in Completed(g, k)
  }

  lemma RunningStart(g: Graph)
    ensures Running(g, [], {})
  {
  }

  /** A round in which something is ready completes at least one more known node, behind its dependencies. */
  lemma RunningStep(g: Graph, rounds: seq<seq<TaskNode>>, completed: set<string>, ready: seq<TaskNode>)
    requires Running(g, rounds, completed) && Frontier(g, completed, ready) && ready != []
    ensures Running(g, rounds + [ready], completed + (set id | id in Ids(ready)))
    ensures |rounds| < |g.nodes|
  {
    hide Completed, Ids, Select;
    var next := completed + (set id | id in Ids(ready));
    var id := ready[0].nodeId;
    CompletedIsKnown(g, |rounds| + 1);
    CompletedNext(g, |rounds|);
    IdListed(ready, ready[0]);
    assert id in ReadyIds(g, completed);
    SmallerSet(completed + {id}, next);
    SmallerSet(next, g.nodes.Keys);
    forall n, d | n in ready && d in n.dependsOn
      ensures d in completed
    {
      IdListed(ready, n);
      assert n.nodeId in ReadyIds(g, completed);
    }
    assert IsRound(g, |rounds|, ready);
  }

  /** Nothing more is ready: the scheduler has stopped, and its result is the verdict. */
  lemma RunningEnd(g: Graph, rounds: seq<seq<TaskNode>>, completed: set<string>)
    requires Running(g, rounds, completed) && Frontier(g, completed, [])
    ensures |rounds| <= |g.nodes| && completed == Completed(g, |rounds|)
    ensures forall k :: 0 <= k < |rounds| ==> IsRound(g, k, rounds[k])
    ensures forall m: nat :: m >= |rounds| ==> Completed(g, m) == completed
    ensures completed == g.nodes.Keys <==> NoMissing(g) && Acyclic(g)
  {
    hide Completed, Select, NoMissing, Acyclic, IsRound, ReadyIds;
    SmallerSet(completed, g.nodes.Keys);
    assert ReadyIds(g, completed) == {};
    StoppedVerdict(g, |rounds|);
    forall m: nat | m >= |rounds|
      ensures Completed(g, m) == completed
    {
      Stopped(g, |rounds|, m - |rounds|);
    }
  }

  lemma CompletedNext(g: Graph, k: nat)
    ensures Completed(g, k + 1) == Completed(g, k) + ReadyIds(g, Completed(g, k))
  {
  }

  lemma {:induction false} IdListed(nodes: seq<TaskNode>, n: TaskNode)
    ensures |Ids(nodes)| == |nodes|
    ensures n in nodes ==> n.nodeId in Ids(nodes)
  {
    if nodes != [] {
      IdListed(nodes[..|nodes| - 1], n);
      assert nodes == nodes[..|nodes| - 1] + [nodes[|nodes| - 1]];
    }
  }

  /** The ready list, node by node: insertion order, and exactly the nodes whose dependencies are completed. */
  lemma ReadyMeans(g: Graph, completed: set<string>)
    requires g.Valid()
    ensures var r := ReadyAmong(g, completed, |g.order|);
            && (forall i, j :: 0 <= i < j < |r| ==> Before(g.order, r[i].nodeId, r[j].nodeId))
            && forall id :: id in g.nodes ==>
                              (g.nodes[id] in r <==>
                               id !in completed && forall d :: d in g.nodes[id].dependsOn ==> d in completed)
  {
    hide ReadyAmong, Before;
    ReadyInOrder(g, completed, |g.order|);
    forall id | id in g.nodes
      ensures g.nodes[id] in ReadyAmong(g, completed, |g.order|) <==>
              id !in completed && forall d :: d in g.nodes[id].dependsOn ==> d in completed
    {
      assert g.order[..|g.order|] == g.order;
      ReadyHas(g, completed, |g.order|, id);
    }
  }

  /** One more node of the comprehension. */
  lemma ReadyNext(g: Graph, completed: set<string>, count: nat)
    requires g.Valid() && count < |g.order|
    ensures var (id, earlier) := (g.order[count], ReadyAmong(g, completed, count));
            && id in g.nodes && g.nodes[id].nodeId == id
            && ReadyAmong(g, completed, count + 1) ==
               if id !in completed && (forall d :: d in g.nodes[id].dependsOn ==> d in completed)
               then earlier + [g.nodes[id]] else earlier
  {
    hide Ids, Select;
    var id := g.order[count];
    assert id in g.order;
    assert ReadyAmong(g, completed, count + 1) ==
           ReadyAmong(g, completed, count)
           + (if id !in completed && (forall d :: d in g.nodes[id].dependsOn ==> d in completed)
              then [g.nodes[id]] else []);
  }

  lemma {:induction false} ReadyInOrder(g: Graph, completed: set<string>, count: nat)
    requires g.Valid() && count <= |g.order|
    ensures var r := ReadyAmong(g, completed, count);
            && (forall i :: 0 <= i < |r| ==> r[i].nodeId in g.order[..count])
            && forall i, j :: 0 <= i < j < |r| ==> Before(g.order, r[i].nodeId, r[j].nodeId)
  {
    hide ReadyAmong, Before;
    if count == 0 {
      assert ReadyAmong(g, completed, 0) == [] by {
        NoneReadyYet(g, completed);
      }
    } else {
      ReadyInOrder(g, completed, count - 1);
      ReadyNext(g, completed, count - 1);
      var earlier := ReadyAmong(g, completed, count - 1);
      var last := g.order[count - 1];
      assert g.order[..count] == g.order[..count - 1] + [last];
      forall i | 0 <= i < |earlier|
        ensures Before(g.order, earlier[i].nodeId, last)
      {
        EarlierInList(g.order, count - 1, earlier[i].nodeId);
      }
    }
  }

  lemma NoneReadyYet(g: Graph, completed: set<string>)
    requires g.Valid()
    ensures ReadyAmong(g, completed, 0) == []
  {
  }

  lemma EarlierInList(list: seq<string>, k: nat, id: string)
    requires k < |list| && id in list[..k]
    ensures Before(list, id, list[k])
  {
    var a :| 0 <= a < k && list[..k][a] == id;
    assert list[a] == id;
  }

  lemma {:induction false} ReadyHas(g: Graph, completed: set<string>, count: nat, id: string)
    requires g.Valid() && count <= |g.order| && id in g.nodes
    ensures g.nodes[id] in ReadyAmong(g, completed, count) <==>
            id in g.order[..count] && id !in completed && forall d :: d in g.nodes[id].dependsOn ==> d in completed
  {
    hide ReadyAmong;
    if count == 0 {
      NoneReadyYet(g, completed);
    } else {
      ReadyHas(g, completed, count - 1, id);
      ReadyNext(g, completed, count - 1);
      assert g.order[..count] == g.order[..count - 1] + [g.order[count - 1]];
      assert g.nodes[id].nodeId == id;
    }
  }

  /** Selecting known nodes from the insertion order loses none. */
  lemma SelectKeeps(g: Graph, keep: set<string>)
    requires g.Valid() && keep <= g.nodes.Keys
    ensures (set id | id in Select(g.order, keep)) == keep
  {
    forall id
      ensures id in Select(g.order, keep) <==> id in keep
    {
      SelectHas(g.order, keep, id);
    }
  }

  lemma {:induction false} SelectHas(list: seq<string>, keep: set<string>, id: string)
    ensures id in Select(list, keep) <==> id in list && id in keep
  {
    if list != [] {
      SelectHas(list[..|list| - 1], keep, id);
      assert list == list[..|list| - 1] + [list[|list| - 1]];
    }
  }

  function Ids(nodes: seq<TaskNode>): seq<string>
  {
    if nodes == [] then [] else Ids(nodes[..|nodes| - 1]) + [nodes[|nodes| - 1].nodeId]
  }

  /** The entries of a list that belong to a set, in the order of the list. */
  function Select(list: seq<string>, keep: set<string>): seq<string>
  {
    if list == [] then []
    else Select(list[..|list| - 1], keep) + (if list[|list| - 1] in keep then [list[|list| - 1]] else [])
  }

  /** The comprehension of ready over the first `count` nodes. */
  function ReadyAmong(g: Graph, completed: set<string>, count: nat): seq<TaskNode>
    requires g.Valid() && count <= |g.order|
  {
    if count == 0 then []
    else
      var node := g.nodes[g.order[count - 1]];
      ReadyAmong(g, completed, count - 1)
      + (if node.nodeId !in completed && (forall d :: d in node.dependsOn ==> d in completed) then [node] else [])
  }

  lemma {:induction false} ReadySelects(g: Graph, completed: set<string>, count: nat)
    requires g.Valid() && count <= |g.order|
    ensures Ids(ReadyAmong(g, completed, count)) == Select(g.order[..count], ReadyIds(g, completed))
    ensures forall n :: n in ReadyAmong(g, completed, count) ==> n.nodeId in g.nodes && g.nodes[n.nodeId] == n
  {
    hide ReadyIds, Select, Ids, ReadyAmong, Graph.Valid;
    if count == 0 {
      NothingSelected(ReadyIds(g, completed));
      NoneReadyYet(g, completed);
    } else {
      var id := g.order[count - 1];
      ReadySelects(g, completed, count - 1);
      ReadyNext(g, completed, count - 1);
      assert g.order[..count] == g.order[..count - 1] + [id];
      SelectSnoc(g.order[..count - 1], id, ReadyIds(g, completed));
      IdsSnoc(ReadyAmong(g, completed, count - 1), g.nodes[id]);
      IsReady(g, completed, id);
    }
  }

  lemma IsReady(g: Graph, completed: set<string>, id: string)
    requires id in g.nodes
    ensures id in ReadyIds(g, completed) <==>
            id !in completed && forall d :: d in g.nodes[id].dependsOn ==> d in completed
  {
  }

  lemma SelectSnoc(list: seq<string>, id: string, keep: set<string>)
    ensures Select(list + [id], keep) == Select(list, keep) + (if id in keep then [id] else [])
  {
    assert (list + [id])[..|list|] == list;
  }

  lemma NothingSelected(keep: set<string>)
    ensures Ids([]) == [] && Select([], keep) == []
  {
  }

  lemma IdsSnoc(nodes: seq<TaskNode>, n: TaskNode)
    ensures Ids(nodes + [n]) == Ids(nodes) + [n.nodeId]
  {
    assert (nodes + [n])[..|nodes|] == nodes;
  }

  /** What the errors mean. */
  lemma Conclude(g: Graph, errors: seq<GraphError>)
    requires g.Valid() && errors == MissingErrors(g, |g.order|) + Cycles(Search(g).cycles)
    ensures forall n :: Cycle(n) in errors ==> OnCycle(g, n)
    ensures forall p :: IsCycle(g, p) ==> exists k :: 0 <= k < |p| && Cycle(p[k]) in errors
    ensures Acyclic(g) <==> Topological(g, Search(g).finished)
    ensures forall j, y :: 0 <= j < |g.order| && Reaches(g, {}, g.order[j], y) && y != g.order[j]
                           && (forall k :: 0 <= k < j ==> !Reaches(g, {}, g.order[k], y)) ==>
                             Before(Search(g).finished, y, g.order[j])
    ensures errors == [] <==> NoMissing(g) && Acyclic(g)
    ensures errors == [] <==> Completed(g, |g.nodes|) == g.nodes.Keys
  {
    hide Search, MissingErrors, NoMissing, Completed, Topological, OnCycle, IsCycle, Acyclic, Reaches, Before;
    forall j, y | 0 <= j < |g.order| && Reaches(g, {}, g.order[j], y) && y != g.order[j]
                  && (forall k :: 0 <= k < j ==> !Reaches(g, {}, g.order[k], y))
      ensures Before(Search(g).finished, y, g.order[j])
    {
      RootsInOrder(g, j, y);
    }
    var reports := Search(g).cycles;
    MissingErrorsEmpty(g);
    SchedulerEquivalence(g);
    SearchMeans(g);
    SearchDecides(g);
    forall n
      ensures Cycle(n) in errors <==> n in reports
    {
      CycleListed(g, errors, reports, n);
    }
    forall n | Cycle(n) in errors
      ensures OnCycle(g, n)
    {
      var i :| 0 <= i < |reports| && reports[i] == n;
    }
    forall p | IsCycle(g, p)
      ensures exists k :: 0 <= k < |p| && Cycle(p[k]) in errors
    {
      var k :| 0 <= k < |p| && p[k] in reports;
    }
  }

  lemma CycleListed(g: Graph, errors: seq<GraphError>, reports: seq<string>, n: string)
    requires g.Valid() && errors == MissingErrors(g, |g.order|) + Cycles(reports)
    ensures Cycle(n) in errors <==> n in reports
  {
    hide MissingErrors;
    MissingErrorsContain(g, |g.order|, Cycle(n));
    if n in reports {
      var i :| 0 <= i < |reports| && reports[i] == n;
      assert Cycles(reports)[i] == Cycle(n);
    }
  }
}

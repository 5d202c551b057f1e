/** The inline Kahn classifier of a project graph, proved exact. */
module Topology {
  import opened ProjectGraph

  datatype Label = Flat | Dag | DagCyclic

  // --- what the labels mean -----------------------------------------------------------------

  predicate Linked(edges: seq<Edge>, path: seq<int>, i: nat)
    requires i + 1 < |path|
  {
    Edge(path[i], path[i + 1]) in edges
  }

  ghost predicate IsWalk(edges: seq<Edge>, path: seq<int>) {
    forall i: nat :: i + 1 < |path| ==> Linked(edges, path, i)
  }

  ghost predicate IsCycle(edges: seq<Edge>, path: seq<int>) {
    |path| >= 2 && path[0] == path[|path| - 1] && IsWalk(edges, path)
  }

  ghost predicate HasCycle(edges: seq<Edge>) {
    exists path :: IsCycle(edges, path)
  }

  ghost predicate IsRanking(edges: seq<Edge>, rank: map<int, nat>) {
    forall e <- edges :: e.src in rank && e.dst in rank && rank[e.src] < rank[e.dst]
  }

  ghost predicate HasRanking(edges: seq<Edge>) {
    exists rank :: IsRanking(edges, rank)
  }

  lemma {:induction false} RankClimbs(edges: seq<Edge>, rank: map<int, nat>, path: seq<int>)
    requires IsRanking(edges, rank) && IsWalk(edges, path) && |path| >= 2
    ensures path[0] in rank && path[|path| - 1] in rank
    ensures rank[path[0]] < rank[path[|path| - 1]]
  {
    assert Linked(edges, path, 0);
    if |path| > 2 {
      assert IsWalk(edges, path[1..]) by {
        forall i: nat | i + 1 < |path[1..]| ensures Linked(edges, path[1..], i) {
          assert Linked(edges, path, i + 1);
        }
      }
      RankClimbs(edges, rank, path[1..]);
    }
  }

  lemma RankingExcludesCycle(edges: seq<Edge>)
    requires HasRanking(edges)
    ensures !HasCycle(edges)
  {
    var rank :| IsRanking(edges, rank);
    forall path ensures !IsCycle(edges, path) {
      if IsCycle(edges, path) { RankClimbs(edges, rank, path); }
    }
  }

  // --- a remnant in which every node has a predecessor contains a cycle -----------------------

  ghost predicate HasPredecessor(edges: seq<Edge>, remnant: set<int>, n: int) {
    exists e :: e in edges && e.dst == n && e.src in remnant
  }

  ghost predicate EveryNodeHasPredecessor(edges: seq<Edge>, remnant: set<int>) {
    forall n {:trigger HasPredecessor(edges, remnant, n)} :: n in remnant ==> HasPredecessor(edges, remnant, n)
  }

  /** Walking backwards never leaves the remnant, so it can go on for any number of steps. */
  lemma {:induction false} BackwardWalk(edges: seq<Edge>, remnant: set<int>, last: int, steps: nat)
    returns (path: seq<int>)
    requires EveryNodeHasPredecessor(edges, remnant) && last in remnant
    ensures |path| == steps + 1 && IsWalk(edges, path)
    ensures forall x <- path :: x in remnant
  {
    if steps == 0 {
      path := [last];
    } else {
      var front := BackwardWalk(edges, remnant, last, steps - 1);
      assert front[0] in front && HasPredecessor(edges, remnant, front[0]);
      var e :| e in edges && e.dst == front[0] && e.src in remnant;
      path := [e.src] + front;
      assert e == Edge(path[0], path[1]);
      forall i: nat | i + 1 < |path| ensures Linked(edges, path, i) {
        if i > 0 { assert Linked(edges, front, i - 1); }
      }
    }
  }

  lemma {:induction false} Pigeonhole(path: seq<int>, nodes: set<int>) returns (i: nat, j: nat)
    requires |path| > |nodes| && forall x <- path :: x in nodes
    ensures i < j < |path| && path[i] == path[j]
  {
    var last := path[|path| - 1];
    if k :| 0 <= k < |path| - 1 && path[k] == last {
      i, j := k, |path| - 1;
    } else {
      forall x | x in path[..|path| - 1] ensures x in nodes - {last} {
        assert x in path;
      }
      assert last in nodes;
      i, j := Pigeonhole(path[..|path| - 1], nodes - {last});
    }
  }

  lemma RemnantHasCycle(edges: seq<Edge>, remnant: set<int>, last: int)
    requires EveryNodeHasPredecessor(edges, remnant) && last in remnant
    ensures HasCycle(edges)
  {
    var path := BackwardWalk(edges, remnant, last, |remnant|);
    var i, j := Pigeonhole(path, remnant);
    var loop := path[i..j + 1];
    forall k: nat | k + 1 < |loop| ensures Linked(edges, loop, k) {
      assert Linked(edges, path, i + k);
    }
    assert IsCycle(edges, loop);
  }

  // --- the classifier -----------------------------------------------------------------------

  /** What holds of the drain loop: `inDegree` counts the edges from nodes not drained yet, and the
      nodes whose count is zero are the drained ones and, each once, those in the frontier. */
  ghost predicate DrainState(edges: seq<Edge>, ids: set<int>, inDegree: map<int, int>,
                             frontier: seq<int>, drained: set<int>, rank: map<int, nat>) {
    && inDegree.Keys == ids && drained <= ids && rank.Keys == drained
    && (forall n <- ids :: inDegree[n] == Pending(edges, n, drained))
    && (forall n <- ids :: inDegree[n] == 0 <==> n in drained || n in frontier)
    && FrontierOk(ids, frontier, drained)
    && (forall e <- edges :: e.dst in drained ==> e.src in drained && rank[e.src] < rank[e.dst])
    && (forall n <- rank :: rank[n] < |drained|)
  }

  ghost predicate FrontierOk(ids: set<int>, frontier: seq<int>, drained: set<int>) {
    && (forall n <- frontier :: n in ids && n !in drained)
    && (forall i, j :: 0 <= i < j < |frontier| ==> frontier[i] != frontier[j])
  }

  lemma FrontierIsReady(edges: seq<Edge>, ids: set<int>, inDegree: map<int, int>,
                        frontier: seq<int>, drained: set<int>, rank: map<int, nat>, id: int)
    requires DrainState(edges, ids, inDegree, frontier, drained, rank) && id in frontier
    ensures forall e <- edges :: e.dst == id ==> e.src in drained
  {
    PendingWitness(edges, id, drained);
  }

  /** A frontier that has run dry decides the label. */
  lemma DrainedDecides(tasks: seq<Task>, edges: seq<Edge>, inDegree: map<int, int>,
                       drained: set<int>, rank: map<int, nat>)
    requires InProject(tasks, edges)
    requires DrainState(edges, Ids(tasks), inDegree, [], drained, rank)
    ensures drained == Ids(tasks) ==> HasRanking(edges)
    ensures drained != Ids(tasks) ==> HasCycle(edges)
  {
    var ids := Ids(tasks);
    if drained == ids {
      assert IsRanking(edges, rank);
    } else {
      var remnant := ids - drained;
      forall n | n in remnant ensures HasPredecessor(edges, remnant, n) {
        PendingWitness(edges, n, drained);
      }
      assert ids == drained + remnant;
      var last :| last in remnant;
      RemnantHasCycle(edges, remnant, last);
    }
  }

  lemma {:induction false} IdCount(tasks: seq<Task>)
    requires DistinctIds(tasks)
    ensures |Ids(tasks)| == |tasks|
  {
    if tasks != [] {
      var init, last := tasks[..|tasks| - 1], tasks[|tasks| - 1];
      IdCount(init);
      assert tasks == init + [last];
      assert Ids(tasks) == Ids(init) + {last.id};
    }
  }

  /** The adjacency table of the drain: edge targets grouped by source, in edge order. */
  method BuildAdjacency(tasks: seq<Task>, edges: seq<Edge>) returns (adj: map<int, seq<int>>)
    requires InProject(tasks, edges)
    ensures adj.Keys == Ids(tasks)
    ensures forall id <- adj :: adj[id] == Targets(edges, id)
  {
    adj := map[];
    for i := 0 to |tasks|
      invariant adj.Keys == Ids(tasks[..i])
      invariant forall id <- adj :: adj[id] == []
    {
      assert tasks[..i + 1] == tasks[..i] + [tasks[i]];
      adj := adj[tasks[i].id := []];
    }
    assert tasks[..|tasks|] == tasks;
    for i := 0 to |edges|
      invariant adj.Keys == Ids(tasks)
      invariant forall id <- adj :: adj[id] == Targets(edges[..i], id)
    {
      assert edges[..i + 1][..i] == edges[..i];
      assert edges[i] in edges;
      adj := adj[edges[i].src := adj[edges[i].src] + [edges[i].dst]];
    }
    assert edges[..|edges|] == edges;
  }

  /** Counts the edges into every task. */
  method BuildInDegree(tasks: seq<Task>, edges: seq<Edge>) returns (inDegree: map<int, int>)
    requires InProject(tasks, edges)
    ensures inDegree.Keys == Ids(tasks)
    ensures forall id <- inDegree :: inDegree[id] == InDegree(edges, id)
  {
    inDegree := map[];
    for i := 0 to |tasks|
      invariant inDegree.Keys == Ids(tasks[..i])
      invariant forall id <- inDegree :: inDegree[id] == 0
    {
      assert tasks[..i + 1] == tasks[..i] + [tasks[i]];
      inDegree := inDegree[tasks[i].id := 0];
    }
    assert tasks[..|tasks|] == tasks;
    for i := 0 to |edges|
      invariant inDegree.Keys == Ids(tasks)
      invariant forall id <- inDegree :: inDegree[id] == InDegree(edges[..i], id)
    {
      assert edges[..i + 1][..i] == edges[..i];
      assert edges[i] in edges;
      inDegree := inDegree[edges[i].dst := inDegree[edges[i].dst] + 1];
    }
    assert edges[..|edges|] == edges;
  }

  /** Halfway through draining `id`: the edges to `done` are already subtracted. */
  ghost predicate MidDrain(edges: seq<Edge>, ids: set<int>, inDegree: map<int, int>,
                           frontier: seq<int>, drained: set<int>, id: int, done: seq<int>) {
    && inDegree.Keys == ids
    && (forall n <- ids :: inDegree[n] == Pending(edges, n, drained) - Count(done, n))
    && (forall n <- ids :: inDegree[n] == 0 <==> n in drained || n == id || n in frontier)
    && FrontierOk(ids, frontier, drained + {id})
  }

  lemma StartDrain(edges: seq<Edge>, ids: set<int>, inDegree: map<int, int>, frontier: seq<int>,
                   drained: set<int>, rank: map<int, nat>, id: int)
    requires DrainState(edges, ids, inDegree, frontier + [id], drained, rank)
    ensures id in ids && id !in drained && MidDrain(edges, ids, inDegree, frontier, drained, id, [])
  {
    var whole := frontier + [id];
    assert whole[|frontier|] == id;
    assert id in whole;
    forall i | 0 <= i < |frontier| ensures whole[i] == frontier[i] && frontier[i] in whole && frontier[i] != id {
      assert whole[i] != whole[|frontier|];
    }
    assert forall n :: n in whole <==> n == id || n in frontier;
  }

  lemma StepDrain(edges: seq<Edge>, ids: set<int>, inDegree: map<int, int>, frontier: seq<int>,
                  drained: set<int>, id: int, targets: seq<int>, j: nat)
    requires targets == Targets(edges, id) && id !in drained && j < |targets| && targets[j] in ids
    requires MidDrain(edges, ids, inDegree, frontier, drained, id, targets[..j])
    ensures inDegree[targets[j]] >= 1
    ensures var left := inDegree[targets[j]] - 1;
            MidDrain(edges, ids, inDegree[targets[j] := left],
                     if left == 0 then frontier + [targets[j]] else frontier, drained, id, targets[..j + 1])
  {
    var nxt := targets[j];
    DrainOne(edges, id, nxt, drained);
    CountPrefix(targets, j, nxt);
    assert targets[..j + 1][..j] == targets[..j];
    var left := inDegree[nxt] - 1;
    var frontier' := if left == 0 then frontier + [nxt] else frontier;
    assert nxt !in frontier && nxt !in drained && nxt != id;
    assert FrontierOk(ids, frontier', drained + {id});
  }

  lemma FinishDrain(edges: seq<Edge>, ids: set<int>, before: map<int, int>, frontierBefore: seq<int>,
                    inDegree: map<int, int>, frontier: seq<int>,
                    drained: set<int>, rank: map<int, nat>, id: int)
    requires DrainState(edges, ids, before, frontierBefore + [id], drained, rank) && id !in drained && id in ids
    requires MidDrain(edges, ids, inDegree, frontier, drained, id, Targets(edges, id))
    ensures DrainState(edges, ids, inDegree, frontier, drained + {id}, rank[id := |drained|])
  {
    forall n | n in ids ensures inDegree[n] == Pending(edges, n, drained + {id}) {
      DrainOne(edges, id, n, drained);
    }
    assert id in frontierBefore + [id];
    FrontierIsReady(edges, ids, before, frontierBefore + [id], drained, rank, id);
  }

  /** Drains one node: subtracts its edges and pushes every node whose count reaches zero. */
  method DrainNode(ghost edges: seq<Edge>, ghost ids: set<int>, id: int, targets: seq<int>,
                   inDegreeIn: map<int, int>, frontierIn: seq<int>,
                   ghost drained: set<int>, ghost rank: map<int, nat>)
    returns (inDegree: map<int, int>, frontier: seq<int>)
    requires targets == Targets(edges, id) && forall e <- edges :: e.src in ids && e.dst in ids
    requires DrainState(edges, ids, inDegreeIn, frontierIn + [id], drained, rank)
    ensures DrainState(edges, ids, inDegree, frontier, drained + {id}, rank[id := |drained|])
  {
    StartDrain(edges, ids, inDegreeIn, frontierIn, drained, rank, id);
    inDegree, frontier := inDegreeIn, frontierIn;
    assert targets[..0] == [];
    for j := 0 to |targets|
      invariant MidDrain(edges, ids, inDegree, frontier, drained, id, targets[..j])
    {
      var nxt := targets[j];
      assert nxt in targets;
      TargetsComplete(edges, id, nxt);
      StepDrain(edges, ids, inDegree, frontier, drained, id, targets, j);
      var left := inDegree[nxt] - 1;
      inDegree := inDegree[nxt := left];
      if left == 0 {
        frontier := frontier + [nxt];
      }
    }
    assert targets[..|targets|] == targets;
    FinishDrain(edges, ids, inDegreeIn, frontierIn, inDegree, frontier, drained, rank, id);
  }

  /** The frontier at the start: the tasks no edge points at, each once, in listing order. */
  method InitialFrontier(tasks: seq<Task>, inDegree: map<int, int>) returns (frontier: seq<int>)
    requires DistinctIds(tasks) && inDegree.Keys == Ids(tasks)
    ensures FrontierOk(Ids(tasks), frontier, {})
    ensures forall n <- Ids(tasks) :: inDegree[n] == 0 <==> n in frontier
  {
    frontier := [];
    for i := 0 to |tasks|
      invariant FrontierOk(Ids(tasks), frontier, {})
      invariant forall n <- frontier :: n in Ids(tasks[..i])
      invariant forall n <- Ids(tasks[..i]) :: inDegree[n] == 0 <==> n in frontier
    {
      assert tasks[..i + 1] == tasks[..i] + [tasks[i]];
      assert tasks[i].id !in Ids(tasks[..i]);
      if inDegree[tasks[i].id] == 0 {
        frontier := frontier + [tasks[i].id];
      }
    }
    assert tasks[..|tasks|] == tasks;
  }

  /** Drains until the frontier is empty, popping from its end; every node is popped at most once. */
  method Drain(tasks: seq<Task>, edges: seq<Edge>, inDegreeIn: map<int, int>) returns (drainedCount: nat)
    requires DistinctIds(tasks) && InProject(tasks, edges)
    requires inDegreeIn.Keys == Ids(tasks)
    requires forall id <- inDegreeIn :: inDegreeIn[id] == InDegree(edges, id)
    ensures drainedCount <= |tasks|
    ensures drainedCount == |tasks| <==> HasRanking(edges)
    ensures drainedCount < |tasks| <==> HasCycle(edges)
  {
    ghost var ids := Ids(tasks);
    var adj := BuildAdjacency(tasks, edges);
    var inDegree := inDegreeIn;
    var frontier := InitialFrontier(tasks, inDegree);
    ghost var drained: set<int>, rank: map<int, nat> := {}, map[];
    drainedCount := 0;
    while |frontier| > 0
      invariant DrainState(edges, ids, inDegree, frontier, drained, rank)
      invariant drainedCount == |drained|
      decreases |ids| - drainedCount
    {
      var id := frontier[|frontier| - 1];
      var rest := frontier[..|frontier| - 1];
      assert frontier == rest + [id];
      PopShrinks(edges, ids, inDegree, frontier, drained, rank, id);
      inDegree, frontier := DrainNode(edges, ids, id, adj[id], inDegree, rest, drained, rank);
      rank := rank[id := |drained|];
      drained := drained + {id};
      drainedCount := drainedCount + 1;
    }
    assert frontier == [];
    DrainedDecides(tasks, edges, inDegree, drained, rank);
    IdCount(tasks);
    if drained != ids { Shrinks(drained, ids); }
    if HasRanking(edges) { RankingExcludesCycle(edges); }
  }

  lemma PopShrinks(edges: seq<Edge>, ids: set<int>, inDegree: map<int, int>, frontier: seq<int>,
                   drained: set<int>, rank: map<int, nat>, id: int)
    requires DrainState(edges, ids, inDegree, frontier, drained, rank) && id in frontier
    ensures id in ids && id !in drained
    ensures |drained + {id}| == |drained| + 1 <= |ids|
  {
    assert drained + {id} <= ids;
    if drained + {id} != ids { Shrinks(drained + {id}, ids); }
  }

  /** The classifier over a ready-made in-degree table. The label is exact in both directions. */
  method ClassifyFromInDegree(tasks: seq<Task>, edges: seq<Edge>, inDegreeIn: map<int, int>)
    returns (topology: Label)
    requires DistinctIds(tasks) && InProject(tasks, edges)
    requires inDegreeIn.Keys == Ids(tasks)
    requires forall id <- inDegreeIn :: inDegreeIn[id] == InDegree(edges, id)
    ensures topology.Flat? <==> edges == []
    ensures topology.Dag? <==> edges != [] && HasRanking(edges)
    ensures topology.DagCyclic? <==> HasCycle(edges)
  {
    if edges == [] {
      assert IsRanking(edges, map[]);
      RankingExcludesCycle(edges);
      return Flat;
    }
    var drainedCount := Drain(tasks, edges, inDegreeIn);
    topology := if drainedCount == |tasks| then Dag else DagCyclic;
  }

  lemma Shrinks(a: set<int>, b: set<int>)
    requires a < b
    ensures |a| < |b|
  {
    assert |b| == |a| + |b - a| by { assert b == a + (b - a); }
  }

  method ClassifyTopologyInline(tasks: seq<Task>, edges: seq<Edge>) returns (topology: Label)
    requires DistinctIds(tasks) && InProject(tasks, edges)
    ensures topology.Flat? <==> edges == []
    ensures topology.Dag? <==> edges != [] && HasRanking(edges)
    ensures topology.DagCyclic? <==> HasCycle(edges)
  {
    if edges == [] {
      assert IsRanking(edges, map[]);
      RankingExcludesCycle(edges);
      return Flat;
    }
    var inDegree := BuildInDegree(tasks, edges);
    topology := ClassifyFromInDegree(tasks, edges, inDegree);
  }
}

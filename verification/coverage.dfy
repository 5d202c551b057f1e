/** Which tasks the unfolding shows, and how often. */
module Coverage {
  import opened ProjectGraph
  import opened Topology
  import opened Unfolding

  /** The children table lists, in some order, exactly the edge targets of every task. */
  ghost predicate FromEdges(ctx: Context, edges: seq<Edge>) {
    && ClosedContext(ctx)
    && forall id {:trigger ListsTargets(ctx, edges, id)} :: id in ctx.children ==> ListsTargets(ctx, edges, id)
  }

  ghost predicate ListsTargets(ctx: Context, edges: seq<Edge>, id: int)
    requires id in ctx.children
  {
    multiset(ctx.children[id]) == multiset(Targets(edges, id))
  }

  lemma ChildIffEdge(ctx: Context, edges: seq<Edge>, id: int, c: int)
    requires FromEdges(ctx, edges) && id in ctx.children
    ensures c in ctx.children[id] <==> Edge(id, c) in edges
  {
    TargetsComplete(edges, id, c);
    assert ListsTargets(ctx, edges, id);
    assert c in ctx.children[id] <==> c in multiset(ctx.children[id]);
    assert c in Targets(edges, id) <==> c in multiset(Targets(edges, id));
  }

  // --- shown if and only if reachable ---------------------------------------------------------

  ghost predicate WalkBetween(edges: seq<Edge>, path: seq<int>, a: int, b: int) {
    path != [] && path[0] == a && path[|path| - 1] == b && IsWalk(edges, path)
  }

  ghost predicate Reaches(edges: seq<Edge>, a: int, b: int) {
    exists path :: WalkBetween(edges, path, a, b)
  }

  ghost predicate Shows(rows: seq<Row>, id: int) {
    exists i :: 0 <= i < |rows| && rows[i].id == id
  }

  predicate Distinct(path: seq<int>) {
    forall i, j :: 0 <= i < j < |path| ==> path[i] != path[j]
  }

  lemma SuffixWalk(edges: seq<Edge>, path: seq<int>, k: nat)
    requires IsWalk(edges, path) && k <= |path|
    ensures IsWalk(edges, path[k..])
  {
    forall i: nat | i + 1 < |path[k..]| ensures Linked(edges, path[k..], i) {
      assert Linked(edges, path, k + i);
    }
  }

  lemma PrependWalk(edges: seq<Edge>, a: int, path: seq<int>)
    requires path != [] && IsWalk(edges, path) && Edge(a, path[0]) in edges
    ensures IsWalk(edges, [a] + path)
  {
    forall i: nat | i + 1 < |[a] + path| ensures Linked(edges, [a] + path, i) {
      if i > 0 { assert Linked(edges, path, i - 1); }
    }
  }

  /** A walk can be cut down to one that repeats no task. */
  lemma {:induction false} SimpleWalk(edges: seq<Edge>, path: seq<int>, a: int, b: int) returns (simple: seq<int>)
    requires WalkBetween(edges, path, a, b)
    ensures WalkBetween(edges, simple, a, b) && Distinct(simple)
    decreases |path|
  {
    if |path| == 1 {
      simple := path;
    } else {
      SuffixWalk(edges, path, 1);
      assert Linked(edges, path, 0);
      var rest := SimpleWalk(edges, path[1..], path[1], b);
      if k :| 0 <= k < |rest| && rest[k] == a {
        SuffixWalk(edges, rest, k);
        simple := rest[k..];
      } else {
        PrependWalk(edges, a, rest);
        simple := [a] + rest;
      }
    }
  }

  lemma {:induction false} KidShown(ctx: Context, ids: seq<int>, k: nat, j: nat, trail: seq<bool>, visited: set<int>,
                                    t: int)
    requires ClosedContext(ctx) && AllKnown(ctx, ids) && j < k <= |ids|
    requires Shows(Unfold(ctx, ids[j], trail + [j + 1 == |ids|], visited), t)
    ensures Shows(Kids(ctx, ids, k, trail, visited), t)
    decreases k
  {
    var rows := Kids(ctx, ids, k, trail, visited);
    var front := Kids(ctx, ids, k - 1, trail, visited);
    if j == k - 1 {
      var last := Unfold(ctx, ids[j], trail + [j + 1 == |ids|], visited);
      var i :| 0 <= i < |last| && last[i].id == t;
      assert rows[|front| + i].id == t;
    } else {
      KidShown(ctx, ids, k - 1, j, trail, visited, t);
      var i :| 0 <= i < |front| && front[i].id == t;
      assert rows[i].id == t;
    }
  }

  /** A walk without repetition that avoids the branch taken so far is spelled out by the unfolding. */
  lemma {:induction false} SimpleWalkShown(ctx: Context, edges: seq<Edge>, path: seq<int>, trail: seq<bool>,
                                           visited: set<int>)
    requires FromEdges(ctx, edges) && path != [] && IsWalk(edges, path) && Distinct(path)
    requires path[0] in ctx.table && forall x <- path :: x !in visited
    ensures Shows(Unfold(ctx, path[0], trail, visited), path[|path| - 1])
    decreases |path|
  {
    var id, rows := path[0], Unfold(ctx, path[0], trail, visited);
    if |path| == 1 {
      assert rows[0].id == path[0];
    } else {
      assert Linked(edges, path, 0);
      ChildIffEdge(ctx, edges, id, path[1]);
      var ids := ctx.children[id];
      var j :| 0 <= j < |ids| && ids[j] == path[1];
      SuffixWalk(edges, path, 1);
      SimpleWalkShown(ctx, edges, path[1..], trail + [j + 1 == |ids|], visited + {id});
      KidShown(ctx, ids, |ids|, j, trail, visited + {id}, path[|path| - 1]);
      var kids := Kids(ctx, ids, |ids|, trail, visited + {id});
      var i :| 0 <= i < |kids| && kids[i].id == path[|path| - 1];
      assert rows[1 + i].id == path[|path| - 1];
    }
  }

  lemma {:induction false} ShownIsReachable(ctx: Context, edges: seq<Edge>, id: int, trail: seq<bool>,
                                            visited: set<int>, i: nat)
    requires FromEdges(ctx, edges) && id in ctx.table && i < |Unfold(ctx, id, trail, visited)|
    ensures Reaches(edges, id, Unfold(ctx, id, trail, visited)[i].id)
    decreases ctx.table.Keys - visited, 0, 0
  {
    if i == 0 {
      assert WalkBetween(edges, [id], id, id);
    } else {
      assert id in ctx.table.Keys - visited;
      var ids := ctx.children[id];
      var j := KidsReachable(ctx, edges, ids, |ids|, trail, visited + {id}, i - 1);
      var t := Unfold(ctx, id, trail, visited)[i].id;
      var path :| WalkBetween(edges, path, ids[j], t);
      ChildIffEdge(ctx, edges, id, ids[j]);
      PrependWalk(edges, id, path);
      assert WalkBetween(edges, [id] + path, id, t);
    }
  }

  lemma {:induction false} KidsReachable(ctx: Context, edges: seq<Edge>, ids: seq<int>, k: nat, trail: seq<bool>,
                                         visited: set<int>, i: nat)
    returns (j: nat)
    requires FromEdges(ctx, edges) && AllKnown(ctx, ids) && k <= |ids| && i < |Kids(ctx, ids, k, trail, visited)|
    ensures j < k && Reaches(edges, ids[j], Kids(ctx, ids, k, trail, visited)[i].id)
    decreases ctx.table.Keys - visited, 1, k
  {
    var front := Kids(ctx, ids, k - 1, trail, visited);
    if i < |front| {
      j := KidsReachable(ctx, edges, ids, k - 1, trail, visited, i);
    } else {
      j := k - 1;
      ShownIsReachable(ctx, edges, ids[j], trail + [k == |ids|], visited, i - |front|);
    }
  }

  lemma {:induction false} RootShown(ctx: Context, ids: seq<int>, k: nat, j: nat, t: int)
    requires ClosedContext(ctx) && AllKnown(ctx, ids) && j < k <= |ids|
    requires Shows(Unfold(ctx, ids[j], [], {}), t)
    ensures Shows(Roots(ctx, ids, k), t)
    decreases k
  {
    var rows, front := Roots(ctx, ids, k), Roots(ctx, ids, k - 1);
    if j == k - 1 {
      var last := Unfold(ctx, ids[j], [], {});
      var i :| 0 <= i < |last| && last[i].id == t;
      assert rows[|front| + i].id == t;
    } else {
      RootShown(ctx, ids, k - 1, j, t);
      var i :| 0 <= i < |front| && front[i].id == t;
      assert rows[i].id == t;
    }
  }

  lemma {:induction false} RootsReachable(ctx: Context, edges: seq<Edge>, ids: seq<int>, k: nat, i: nat)
    returns (j: nat)
    requires FromEdges(ctx, edges) && AllKnown(ctx, ids) && k <= |ids| && i < |Roots(ctx, ids, k)|
    ensures j < k && Reaches(edges, ids[j], Roots(ctx, ids, k)[i].id)
  {
    var front := Roots(ctx, ids, k - 1);
    if i < |front| {
      j := RootsReachable(ctx, edges, ids, k - 1, i);
    } else {
      j := k - 1;
      ShownIsReachable(ctx, edges, ids[j], [], {}, i - |front|);
    }
  }

  /** On every graph, cyclic or not, the unfolding shows exactly the tasks reachable from its roots. */
  lemma ShownIffReachable(ctx: Context, edges: seq<Edge>, rootIds: seq<int>, t: int)
    requires FromEdges(ctx, edges) && AllKnown(ctx, rootIds)
    ensures Shows(Forest(ctx, rootIds), t) <==> exists r :: r in rootIds && Reaches(edges, r, t)
  {
    var rows := Forest(ctx, rootIds);
    if Shows(rows, t) {
      var i :| 0 <= i < |rows| && rows[i].id == t;
      var j := RootsReachable(ctx, edges, rootIds, |rootIds|, i);
      assert rootIds[j] in rootIds;
    }
    if r :| r in rootIds && Reaches(edges, r, t) {
      var path :| WalkBetween(edges, path, r, t);
      var simple := SimpleWalk(edges, path, r, t);
      var j :| 0 <= j < |rootIds| && rootIds[j] == r;
      SimpleWalkShown(ctx, edges, simple, [], {});
      RootShown(ctx, rootIds, |rootIds|, j, t);
    }
  }

  /** Without a cycle every task is reachable from one that nothing blocks. */
  lemma {:induction false} ReachableFromSource(edges: seq<Edge>, rank: map<int, nat>, t: int) returns (r: int)
    requires IsRanking(edges, rank)
    ensures InDegree(edges, r) == 0 && Reaches(edges, r, t)
    ensures r == t || exists e :: e in edges && e.src == r
    decreases if t in rank then rank[t] else 0
  {
    PendingWitness(edges, t, {});
    if InDegree(edges, t) == 0 {
      r := t;
      assert WalkBetween(edges, [t], t, t);
    } else {
      var e :| e in edges && e.dst == t;
      r := ReachableFromSource(edges, rank, e.src);
      var path :| WalkBetween(edges, path, r, e.src);
      forall i: nat | i + 1 < |path + [t]| ensures Linked(edges, path + [t], i) {
        if i + 1 < |path| { assert Linked(edges, path, i); }
      }
      assert WalkBetween(edges, path + [t], r, t);
    }
  }

  // --- how often a task is shown --------------------------------------------------------------

  /** The number of branches with exactly `d` edges from `a` to `b` in the graph below a branch through `seen`: a
      branch ends at the first task it has already passed. Every edge counts, duplicates too. */
  ghost function BranchCount(edges: seq<Edge>, a: int, d: nat, b: int, seen: set<int>): nat
    decreases d, 1, 0
  {
    if d == 0 then (if a == b then 1 else 0)
    else if a in seen then 0
    else BranchCounts(edges, Targets(edges, a), d - 1, b, seen + {a})
  }

  ghost function BranchCounts(edges: seq<Edge>, starts: seq<int>, d: nat, b: int, seen: set<int>): nat
    decreases d, 2, |starts|
  {
    if starts == [] then 0
    else BranchCounts(edges, starts[..|starts| - 1], d, b, seen) + BranchCount(edges, starts[|starts| - 1], d, b, seen)
  }

  lemma {:induction false} BranchCountsConcat(edges: seq<Edge>, s: seq<int>, t: seq<int>, d: nat, b: int,
                                              seen: set<int>)
    ensures BranchCounts(edges, s + t, d, b, seen) ==
            BranchCounts(edges, s, d, b, seen) + BranchCounts(edges, t, d, b, seen)
    decreases |t|
  {
    if t == [] {
      assert s + t == s;
    } else {
      var init := t[..|t| - 1];
      BranchCountsConcat(edges, s, init, d, b, seen);
      assert (s + t)[..|s + t| - 1] == s + init;
    }
  }

  lemma {:induction false} BranchCountsWithout(edges: seq<Edge>, t: seq<int>, k: nat, d: nat, b: int, seen: set<int>)
    requires k < |t|
    ensures BranchCounts(edges, t, d, b, seen) ==
            BranchCounts(edges, t[..k] + t[k + 1..], d, b, seen) + BranchCount(edges, t[k], d, b, seen)
  {
    var x := t[k];
    assert t == t[..k] + [x] + t[k + 1..];
    BranchCountsConcat(edges, t[..k], t[k + 1..], d, b, seen);
    BranchCountsConcat(edges, t[..k] + [x], t[k + 1..], d, b, seen);
    assert (t[..k] + [x])[..k] == t[..k];
  }

  /** Taking the last of `s` out of both leaves the same elements. */
  lemma Without(s: seq<int>, t: seq<int>) returns (k: nat)
    requires s != [] && multiset(s) == multiset(t)
    ensures k < |t| && t[k] == s[|s| - 1]
    ensures multiset(s[..|s| - 1]) == multiset(t[..k] + t[k + 1..])
  {
    var x, init := s[|s| - 1], s[..|s| - 1];
    assert s == init + [x];
    assert x in multiset(t);
    k :| 0 <= k < |t| && t[k] == x;
    assert t == t[..k] + [x] + t[k + 1..];
    assert multiset(init) == multiset(s) - multiset{x};
    assert multiset(t[..k] + t[k + 1..]) == multiset(t) - multiset{x};
  }

  /** The order in which starting points are listed does not matter. */
  lemma {:induction false} BranchCountsPermute(edges: seq<Edge>, s: seq<int>, t: seq<int>, d: nat, b: int,
                                               seen: set<int>)
    requires multiset(s) == multiset(t)
    ensures BranchCounts(edges, s, d, b, seen) == BranchCounts(edges, t, d, b, seen)
    decreases |s|
  {
    if s == [] {
      assert t == [] by { assert |multiset(t)| == |t|; }
    } else {
      var k := Without(s, t);
      BranchCountsPermute(edges, s[..|s| - 1], t[..k] + t[k + 1..], d, b, seen);
      BranchCountsWithout(edges, t, k, d, b, seen);
    }
  }

  /** The number of rows that show `t` at depth `depth`. */
  ghost function Occurrences(rows: seq<Row>, t: int, depth: nat): nat {
    if rows == [] then 0
    else
      var last := rows[|rows| - 1];
      Occurrences(rows[..|rows| - 1], t, depth) + (if last.id == t && |last.trail| == depth then 1 else 0)
  }

  lemma {:induction false} OccurrencesConcat(a: seq<Row>, b: seq<Row>, t: int, depth: nat)
    ensures Occurrences(a + b, t, depth) == Occurrences(a, t, depth) + Occurrences(b, t, depth)
    decreases |b|
  {
    if b == [] {
      assert a + b == a;
    } else {
      OccurrencesConcat(a, b[..|b| - 1], t, depth);
      assert (a + b)[..|a + b| - 1] == a + b[..|b| - 1];
    }
  }

  lemma {:induction false} NothingAbove(ctx: Context, id: int, trail: seq<bool>, visited: set<int>, t: int, depth: nat)
    requires ClosedContext(ctx) && id in ctx.table && depth < |trail|
    ensures Occurrences(Unfold(ctx, id, trail, visited), t, depth) == 0
    decreases ctx.table.Keys - visited, 0, 0
  {
    var row := Row(id, trail, id in visited);
    assert Occurrences([row], t, depth) == 0;
    if id !in visited {
      assert id in ctx.table.Keys - visited;
      var ids := ctx.children[id];
      NothingAboveKids(ctx, ids, |ids|, trail, visited + {id}, t, depth);
      OccurrencesConcat([row], Kids(ctx, ids, |ids|, trail, visited + {id}), t, depth);
    }
  }

  lemma {:induction false} NothingAboveKids(ctx: Context, ids: seq<int>, k: nat, trail: seq<bool>, visited: set<int>,
                                            t: int, depth: nat)
    requires ClosedContext(ctx) && AllKnown(ctx, ids) && k <= |ids| && depth <= |trail|
    ensures Occurrences(Kids(ctx, ids, k, trail, visited), t, depth) == 0
    decreases ctx.table.Keys - visited, 1, k
  {
    if k > 0 {
      var childTrail := trail + [k == |ids|];
      NothingAboveKids(ctx, ids, k - 1, trail, visited, t, depth);
      NothingAbove(ctx, ids[k - 1], childTrail, visited, t, depth);
      OccurrencesConcat(Kids(ctx, ids, k - 1, trail, visited), Unfold(ctx, ids[k - 1], childTrail, visited), t, depth);
    }
  }

  lemma FirstRowThenKids(ctx: Context, id: int, trail: seq<bool>, visited: set<int>, t: int, depth: nat)
    requires ClosedContext(ctx) && id in ctx.table && id !in visited
    ensures Occurrences(Unfold(ctx, id, trail, visited), t, depth) ==
            (if id == t && |trail| == depth then 1 else 0) +
            Occurrences(Kids(ctx, ctx.children[id], |ctx.children[id]|, trail, visited + {id}), t, depth)
  {
    var row := Row(id, trail, false);
    assert [row][..0] == [];
    OccurrencesConcat([row], Kids(ctx, ctx.children[id], |ctx.children[id]|, trail, visited + {id}), t, depth);
  }

  lemma {:induction false} UnfoldCounts(ctx: Context, edges: seq<Edge>, id: int, trail: seq<bool>, visited: set<int>,
                                        t: int, d: nat)
    requires FromEdges(ctx, edges) && id in ctx.table
    ensures Occurrences(Unfold(ctx, id, trail, visited), t, |trail| + d) == BranchCount(edges, id, d, t, visited)
    decreases ctx.table.Keys - visited, 0, 0
  {
    if id in visited {
      RevisitCounts(ctx, id, trail, visited, t, |trail| + d);
    } else {
      assert id in ctx.table.Keys - visited;
      var ids := ctx.children[id];
      FirstRowThenKids(ctx, id, trail, visited, t, |trail| + d);
      if d == 0 {
        NothingAboveKids(ctx, ids, |ids|, trail, visited + {id}, t, |trail|);
      } else {
        KidsCounts(ctx, edges, ids, |ids|, trail, visited + {id}, t, d - 1);
        assert ids[..|ids|] == ids;
        assert ListsTargets(ctx, edges, id);
        BranchCountsPermute(edges, ids, Targets(edges, id), d - 1, t, visited + {id});
      }
    }
  }

  lemma RevisitCounts(ctx: Context, id: int, trail: seq<bool>, visited: set<int>, t: int, depth: nat)
    requires ClosedContext(ctx) && id in ctx.table && id in visited
    ensures Occurrences(Unfold(ctx, id, trail, visited), t, depth) == if id == t && |trail| == depth then 1 else 0
  {
    assert [Row(id, trail, true)][..0] == [];
  }

  lemma OneMoreStart(edges: seq<Edge>, ids: seq<int>, k: nat, t: int, d: nat, seen: set<int>)
    requires 0 < k <= |ids|
    ensures BranchCounts(edges, ids[..k], d, t, seen) ==
            BranchCounts(edges, ids[..k - 1], d, t, seen) + BranchCount(edges, ids[k - 1], d, t, seen)
  {
    assert ids[..k][..k - 1] == ids[..k - 1];
  }

  lemma OneMoreKid(ctx: Context, ids: seq<int>, k: nat, trail: seq<bool>, visited: set<int>, t: int, depth: nat)
    requires ClosedContext(ctx) && AllKnown(ctx, ids) && 0 < k <= |ids|
    ensures Occurrences(Kids(ctx, ids, k, trail, visited), t, depth) ==
            Occurrences(Kids(ctx, ids, k - 1, trail, visited), t, depth) +
            Occurrences(Unfold(ctx, ids[k - 1], trail + [k == |ids|], visited), t, depth)
  {
    OccurrencesConcat(Kids(ctx, ids, k - 1, trail, visited), Unfold(ctx, ids[k - 1], trail + [k == |ids|], visited),
                      t, depth);
  }

  lemma {:induction false} KidsCounts(ctx: Context, edges: seq<Edge>, ids: seq<int>, k: nat, trail: seq<bool>,
                                      visited: set<int>, t: int, d: nat)
    requires FromEdges(ctx, edges) && AllKnown(ctx, ids) && k <= |ids|
    ensures Occurrences(Kids(ctx, ids, k, trail, visited), t, |trail| + 1 + d) ==
            BranchCounts(edges, ids[..k], d, t, visited)
    decreases ctx.table.Keys - visited, 1, k
  {
    if k > 0 {
      KidsCounts(ctx, edges, ids, k - 1, trail, visited, t, d);
      UnfoldCounts(ctx, edges, ids[k - 1], trail + [k == |ids|], visited, t, d);
      OneMoreKid(ctx, ids, k, trail, visited, t, |trail| + 1 + d);
      OneMoreStart(edges, ids, k, t, d, visited);
    }
  }

  lemma {:induction false} RootsCounts(ctx: Context, edges: seq<Edge>, rootIds: seq<int>, k: nat, t: int, d: nat)
    requires FromEdges(ctx, edges) && AllKnown(ctx, rootIds) && k <= |rootIds|
    ensures Occurrences(Roots(ctx, rootIds, k), t, d) == BranchCounts(edges, rootIds[..k], d, t, {})
  {
    if k > 0 {
      RootsCounts(ctx, edges, rootIds, k - 1, t, d);
      UnfoldCounts(ctx, edges, rootIds[k - 1], [], {}, t, d);
      OccurrencesConcat(Roots(ctx, rootIds, k - 1), Unfold(ctx, rootIds[k - 1], [], {}), t, d);
      OneMoreStart(edges, rootIds, k, t, d, {});
    }
  }

  /** On every graph, cyclic or not, a task is shown at depth `d` once for every branch of `d` edges that leads to it
      from a root, in whatever order the roots are listed: nothing is lost, and nothing is shown below a revisit. */
  lemma ShownOncePerBranch(ctx: Context, edges: seq<Edge>, rootIds: seq<int>, starts: seq<int>, t: int, d: nat)
    requires FromEdges(ctx, edges) && AllKnown(ctx, rootIds) && multiset(rootIds) == multiset(starts)
    ensures Occurrences(Forest(ctx, rootIds), t, d) == BranchCounts(edges, starts, d, t, {})
  {
    RootsCounts(ctx, edges, rootIds, |rootIds|, t, d);
    assert rootIds[..|rootIds|] == rootIds;
    BranchCountsPermute(edges, rootIds, starts, d, t, {});
  }

  // --- shown once per path --------------------------------------------------------------------

  /** The number of walks with exactly `d` edges from `a` to `b`. */
  ghost function WalkCount(edges: seq<Edge>, a: int, d: nat, b: int): nat
    decreases d, 1, 0
  {
    if d == 0 then (if a == b then 1 else 0) else WalkCounts(edges, Targets(edges, a), d - 1, b)
  }

  ghost function WalkCounts(edges: seq<Edge>, starts: seq<int>, d: nat, b: int): nat
    decreases d, 2, |starts|
  {
    if starts == [] then 0
    else WalkCounts(edges, starts[..|starts| - 1], d, b) + WalkCount(edges, starts[|starts| - 1], d, b)
  }

  ghost predicate Deeper(rank: map<int, nat>, seen: set<int>, id: int) {
    forall v <- seen :: v in rank && id in rank && rank[v] < rank[id]
  }

  /** Without a cycle no branch meets itself again: every walk is a branch. */
  lemma {:induction false} BranchIsWalk(edges: seq<Edge>, rank: map<int, nat>, a: int, d: nat, b: int, seen: set<int>)
    requires IsRanking(edges, rank) && Deeper(rank, seen, a)
    ensures BranchCount(edges, a, d, b, seen) == WalkCount(edges, a, d, b)
    decreases d, 1, 0
  {
    if d > 0 {
      assert a !in seen;
      forall c | c in Targets(edges, a) ensures Deeper(rank, seen + {a}, c) {
        TargetsComplete(edges, a, c);
      }
      BranchesAreWalks(edges, rank, Targets(edges, a), d - 1, b, seen + {a});
    }
  }

  lemma {:induction false} BranchesAreWalks(edges: seq<Edge>, rank: map<int, nat>, starts: seq<int>, d: nat, b: int,
                                            seen: set<int>)
    requires IsRanking(edges, rank) && forall a <- starts :: Deeper(rank, seen, a)
    ensures BranchCounts(edges, starts, d, b, seen) == WalkCounts(edges, starts, d, b)
    decreases d, 2, |starts|
  {
    if starts != [] {
      var init, last := starts[..|starts| - 1], starts[|starts| - 1];
      assert last in starts && forall a <- init :: a in starts;
      BranchesAreWalks(edges, rank, init, d, b, seen);
      BranchIsWalk(edges, rank, last, d, b, seen);
    }
  }

  /** On an acyclic graph a task is shown at depth `d` once for every walk of `d` edges that leads to it
      from a root: diamonds are duplicated, nothing is lost and nothing is added. */
  lemma ShownOncePerPath(ctx: Context, edges: seq<Edge>, rank: map<int, nat>, rootIds: seq<int>, starts: seq<int>,
                         t: int, d: nat)
    requires FromEdges(ctx, edges) && IsRanking(edges, rank) && AllKnown(ctx, rootIds)
    requires multiset(rootIds) == multiset(starts)
    ensures Occurrences(Forest(ctx, rootIds), t, d) == WalkCounts(edges, starts, d, t)
  {
    ShownOncePerBranch(ctx, edges, rootIds, starts, t, d);
    BranchesAreWalks(edges, rank, starts, d, t, {});
  }
}

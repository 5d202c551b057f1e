/** The answer is a function of the stored rows, not of the order in which the database returned them. */
module Determinism {
  import opened Sorting
  import opened ProjectGraph
  import opened Topology
  import opened Unfolding
  import opened TextLines
  import opened Outlines
  import opened GraphService

  // --- a capped preorder has one forest ---------------------------------------------------------------

  predicate NodesShallower(rest: seq<TreeNode>, depth: nat) {
    rest != [] ==> rest[0].depth < depth
  }

  /** The listing of a nonempty forest opens with its first node, then that node's descendants. */
  lemma Opened(a: seq<TreeNode>, depth: nat, rest: seq<TreeNode>)
    requires a != [] && AllNested(a, depth) && NodesShallower(rest, depth)
    ensures FlattenAll(a) + rest ==
            [a[0].(children := [])] + (FlattenAll(a[0].children) + (FlattenAll(a[1..]) + rest))
    ensures NodesShallower(FlattenAll(a[1..]) + rest, depth + 1)
    ensures AllNested(a[0].children, depth + 1) && AllNested(a[1..], depth) && a[0].depth == depth
  {
    FlattenFirst(a);
    assert Nested(a[0], depth);
    if |a| > 1 {
      FlattenFirst(a[1..]);
      assert Nested(a[1], depth);
    }
  }

  lemma ConsUnique(x: TreeNode, xs: seq<TreeNode>, y: TreeNode, ys: seq<TreeNode>)
    requires [x] + xs == [y] + ys
    ensures x == y && xs == ys
  {
    assert xs == ([x] + xs)[1..] && ys == ([y] + ys)[1..];
    assert ([x] + xs)[0] == x && ([y] + ys)[0] == y;
  }

  /** A forest is determined by its preorder: what follows it in a longer listing is recognised by depth. */
  lemma {:induction false} FlatteningIsUnique(a: seq<TreeNode>, b: seq<TreeNode>, depth: nat, restA: seq<TreeNode>,
                                              restB: seq<TreeNode>)
    requires AllNested(a, depth) && AllNested(b, depth)
    requires NodesShallower(restA, depth) && NodesShallower(restB, depth)
    requires FlattenAll(a) + restA == FlattenAll(b) + restB
    ensures a == b && restA == restB
    decreases a
  {
    if a != [] { Opened(a, depth, restA); }
    if b != [] { Opened(b, depth, restB); }
    if a == [] || b == [] {
      assert FlattenAll([]) + restA == restA && FlattenAll([]) + restB == restB;
    } else {
      var afterA, afterB := FlattenAll(a[1..]) + restA, FlattenAll(b[1..]) + restB;
      ConsUnique(a[0].(children := []), FlattenAll(a[0].children) + afterA,
                 b[0].(children := []), FlattenAll(b[0].children) + afterB);
      FlatteningIsUnique(a[0].children, b[0].children, depth + 1, afterA, afterB);
      FlatteningIsUnique(a[1..], b[1..], depth, restA, restB);
      assert a == [a[0]] + a[1..] && b == [b[0]] + b[1..];
    }
  }

  // --- permuted rows give the same tables ---------------------------------------------------------------

  lemma {:induction false} FilterCount(tasks: seq<Task>, deps: seq<Edge>, e: Edge)
    ensures multiset(InProjectOnly(tasks, deps))[e] ==
            if e.src in Ids(tasks) && e.dst in Ids(tasks) then multiset(deps)[e] else 0
  {
    if deps != [] {
      var init, last := deps[..|deps| - 1], deps[|deps| - 1];
      assert deps == init + [last];
      FilterCount(tasks, init, e);
    }
  }

  function Reversed(e: Edge): Edge { Edge(e.dst, e.src) }

  /** The in-degree is the number of targets in the reversed graph. */
  lemma {:induction false} InDegreeReversed(edges: seq<Edge>, id: int)
    ensures InDegree(edges, id) == |Targets(Mapped(Reversed, edges), id)|
  {
    if edges != [] {
      InDegreeReversed(edges[..|edges| - 1], id);
    }
  }

  lemma TargetsPermute(a: seq<Edge>, b: seq<Edge>, id: int)
    requires multiset(a) == multiset(b)
    ensures multiset(Targets(a, id)) == multiset(Targets(b, id))
  {
    forall c ensures multiset(Targets(a, id))[c] == multiset(Targets(b, id))[c] {
      TargetCount(a, id, c);
      TargetCount(b, id, c);
    }
  }

  lemma InDegreePermutes(a: seq<Edge>, b: seq<Edge>, id: int)
    requires multiset(a) == multiset(b)
    ensures InDegree(a, id) == InDegree(b, id)
  {
    InDegreeReversed(a, id);
    InDegreeReversed(b, id);
    MappedPermutes(Reversed, a, b);
    TargetsPermute(Mapped(Reversed, a), Mapped(Reversed, b), id);
    SameElements(Targets(Mapped(Reversed, a), id), Targets(Mapped(Reversed, b), id));
  }

  /** The same rows in another order. */
  predicate SameRows<T(==)>(a: seq<T>, b: seq<T>) { multiset(a) == multiset(b) }

  lemma TablesAgree(a: seq<Task>, b: seq<Task>)
    requires DistinctIds(a) && DistinctIds(b) && SameRows(a, b)
    ensures Ids(a) == Ids(b) && TaskTable(a) == TaskTable(b)
  {
    SameElements(a, b);
    forall t | t in a ensures t.id in Ids(b) && TaskTable(a)[t.id] == TaskTable(b)[t.id] {
      TableHolds(a, t);
      TableHolds(b, t);
    }
    forall t | t in b ensures t.id in Ids(a) {}
  }

  function IdOf(t: Task): int { t.id }

  lemma {:induction false} SourceCount(tasks: seq<Task>, inDegree: map<int, int>, id: int)
    requires forall t <- tasks :: t.id in inDegree
    ensures multiset(Sources(tasks, inDegree))[id] ==
            if id in inDegree && inDegree[id] == 0 then multiset(Mapped(IdOf, tasks))[id] else 0
  {
    if tasks != [] {
      var init, last := tasks[..|tasks| - 1], tasks[|tasks| - 1];
      assert tasks == init + [last];
      SourceCount(init, inDegree, id);
    }
  }

  lemma {:induction false} AllIdsMapped(tasks: seq<Task>)
    ensures AllIds(tasks) == Mapped(IdOf, tasks)
  {
    if tasks != [] {
      AllIdsMapped(tasks[..|tasks| - 1]);
      assert AllIds(tasks) == AllIds(tasks[..|tasks| - 1]) + [tasks[|tasks| - 1].id];
    }
  }

  lemma SortedTheSame(table: map<int, Task>, a: seq<int>, b: seq<int>)
    requires SameRows(a, b) && Within(a, table.Keys)
    ensures Sort(ListingOrder(table), a) == Sort(ListingOrder(table), b)
  {
    ListingOrderIsTotal(table);
    SameElements(a, b);
    SortIsOrdered(ListingOrder(table), b, table.Keys);
    SortIsUnique(ListingOrder(table), a, Sort(ListingOrder(table), b), table.Keys);
  }

  lemma SourcesAgree(a: seq<Task>, b: seq<Task>, inDegree: map<int, int>)
    requires SameRows(a, b)
    requires forall t <- a :: t.id in inDegree
    requires forall t <- b :: t.id in inDegree
    ensures SameRows(Sources(a, inDegree), Sources(b, inDegree)) && SameRows(AllIds(a), AllIds(b))
  {
    MappedPermutes(IdOf, a, b);
    AllIdsMapped(a);
    AllIdsMapped(b);
    forall id ensures multiset(Sources(a, inDegree))[id] == multiset(Sources(b, inDegree))[id] {
      SourceCount(a, inDegree, id);
      SourceCount(b, inDegree, id);
    }
  }

  lemma RootsAgree(a: seq<Task>, b: seq<Task>, inDegree: map<int, int>)
    requires DistinctIds(a) && DistinctIds(b) && SameRows(a, b)
    requires forall t <- a :: t.id in inDegree
    requires forall t <- b :: t.id in inDegree
    ensures RootIds(a, inDegree) == RootIds(b, inDegree)
  {
    TablesAgree(a, b);
    SameElements(a, b);
    SourcesAgree(a, b, inDegree);
    var table := TaskTable(a);
    assert Within(AllIds(a), table.Keys);
    assert Within(Sources(a, inDegree), table.Keys) by {
      forall id | id in Sources(a, inDegree) ensures id in Ids(a) { SourcesExact(a, inDegree, id); }
    }
    SortedTheSame(table, Sources(a, inDegree), Sources(b, inDegree));
    SortedTheSame(table, AllIds(a), AllIds(b));
  }

  lemma ChildrenAgree(table: map<int, Task>, edges: seq<Edge>, other: seq<Edge>, id: int)
    requires SameRows(edges, other) && forall e <- edges :: e.dst in table
    ensures Sort(ListingOrder(table), Targets(edges, id)) == Sort(ListingOrder(table), Targets(other, id))
  {
    TargetsPermute(edges, other, id);
    forall c | c in Targets(edges, id) ensures c in table { TargetsComplete(edges, id, c); }
    SortedTheSame(table, Targets(edges, id), Targets(other, id));
  }

  lemma ContextsAgree(a: seq<Task>, b: seq<Task>, edges: seq<Edge>, other: seq<Edge>)
    requires DistinctIds(a) && DistinctIds(b) && SameRows(a, b)
    requires InProject(a, edges) && SameRows(edges, other)
    ensures ContextOf(a, edges) == ContextOf(b, other)
  {
    TablesAgree(a, b);
    var table := TaskTable(a);
    forall id | id in Ids(a)
      ensures Sort(ListingOrder(table), Targets(edges, id)) == Sort(ListingOrder(table), Targets(other, id))
    {
      ChildrenAgree(table, edges, other, id);
    }
    forall id | id in Ids(a) ensures InDegree(edges, id) == InDegree(other, id) {
      InDegreePermutes(edges, other, id);
    }
    ContextFrom(a, b, edges, other);
  }

  lemma ContextFrom(a: seq<Task>, b: seq<Task>, edges: seq<Edge>, other: seq<Edge>)
    requires Ids(a) == Ids(b) && TaskTable(a) == TaskTable(b)
    requires forall id <- Ids(a) ::
               && Sort(ListingOrder(TaskTable(a)), Targets(edges, id)) ==
                 Sort(ListingOrder(TaskTable(a)), Targets(other, id))
               && InDegree(edges, id) == InDegree(other, id)
    ensures ContextOf(a, edges) == ContextOf(b, other)
  {
  }

  // --- the theorem ------------------------------------------------------------------------------------

  /** The two reads return the same project. */
  ghost predicate SameProject(tasks: seq<Task>, deps: seq<Edge>, tasks': seq<Task>, deps': seq<Edge>) {
    && DistinctIds(tasks) && DistinctIds(tasks')
    && SameRows(tasks, tasks') && SameRows(deps, deps')
  }

  lemma SameEdges(tasks: seq<Task>, deps: seq<Edge>, tasks': seq<Task>, deps': seq<Edge>)
    requires SameProject(tasks, deps, tasks', deps')
    ensures SameRows(InProjectOnly(tasks, deps), InProjectOnly(tasks', deps'))
    ensures |InProjectOnly(tasks, deps)| == |InProjectOnly(tasks', deps')|
    ensures forall e :: e in InProjectOnly(tasks, deps) <==> e in InProjectOnly(tasks', deps')
  {
    TablesAgree(tasks, tasks');
    forall e ensures multiset(InProjectOnly(tasks, deps))[e] == multiset(InProjectOnly(tasks', deps'))[e] {
      FilterCount(tasks, deps, e);
      FilterCount(tasks', deps', e);
    }
    SameElements(InProjectOnly(tasks, deps), InProjectOnly(tasks', deps'));
  }

  lemma SameForest(tasks: seq<Task>, deps: seq<Edge>, tasks': seq<Task>, deps': seq<Edge>)
    requires SameProject(tasks, deps, tasks', deps')
    ensures ContextOf(tasks, InProjectOnly(tasks, deps)) == ContextOf(tasks', InProjectOnly(tasks', deps'))
    ensures AllRows(tasks, InProjectOnly(tasks, deps)) == AllRows(tasks', InProjectOnly(tasks', deps'))
  {
    var edges, edges' := InProjectOnly(tasks, deps), InProjectOnly(tasks', deps');
    SameEdges(tasks, deps, tasks', deps');
    ContextsAgree(tasks, tasks', edges, edges');
    ContextIsSound(tasks, edges);
    ContextIsSound(tasks', edges');
    RootsAgree(tasks, tasks', ContextOf(tasks, edges).inDegree);
  }

  lemma CyclesDependOnMembers(a: seq<Edge>, b: seq<Edge>)
    requires forall e :: e in a ==> e in b
    requires HasCycle(a)
    ensures HasCycle(b)
  {
    var path :| IsCycle(a, path);
    assert forall i: nat :: i + 1 < |path| ==> Linked(a, path, i) && Linked(b, path, i);
    assert IsCycle(b, path);
  }

  lemma SameLabel(tasks: seq<Task>, deps: seq<Edge>, tasks': seq<Task>, deps': seq<Edge>, format: Format,
                  r: Response, r': Response)
    requires SameProject(tasks, deps, tasks', deps')
    requires Answers(tasks, deps, format, r) && Answers(tasks', deps', format, r')
    ensures r.topology == r'.topology && r.totalTasks == r'.totalTasks && r.totalEdges == r'.totalEdges
  {
    var edges, edges' := InProjectOnly(tasks, deps), InProjectOnly(tasks', deps');
    SameEdges(tasks, deps, tasks', deps');
    SameElements(tasks, tasks');
    if HasCycle(edges) { CyclesDependOnMembers(edges, edges'); }
    if HasCycle(edges') { CyclesDependOnMembers(edges', edges); }
  }

  lemma SameGraph(tasks: seq<Task>, deps: seq<Edge>, tasks': seq<Task>, deps': seq<Edge>, r: Response, r': Response)
    requires SameProject(tasks, deps, tasks', deps')
    requires Answers(tasks, deps, GraphFormat, r) && Answers(tasks', deps', GraphFormat, r')
    ensures r.nodes == r'.nodes && r.edges == r'.edges
  {
    SameEdges(tasks, deps, tasks', deps');
    SameElements(r.nodes, tasks);
    var ts, es := set t <- tasks, set e <- r.edges;
    assert TotalOn(IdOrder, ts);
    OrderedIsUnique(IdOrder, r.nodes, r'.nodes, ts);
    OrderedIsUnique(EdgeOrder, r.edges, r'.edges, es);
  }

  /** Whatever order the database returns tasks and dependencies in, each format gives the same response. */
  lemma ReadOrderIsIrrelevant(tasks: seq<Task>, deps: seq<Edge>, tasks': seq<Task>, deps': seq<Edge>, format: Format,
                              r: Response, r': Response)
    requires SameProject(tasks, deps, tasks', deps')
    requires Answers(tasks, deps, format, r) && Answers(tasks', deps', format, r')
    ensures r == r'
  {
    SameLabel(tasks, deps, tasks', deps', format, r, r');
    SameForest(tasks, deps, tasks', deps');
    match format
    case TreeFormat => FlatteningIsUnique(r.roots, r'.roots, 0, [], []);
    case TextFormat =>
    case GraphFormat => SameGraph(tasks, deps, tasks', deps', r, r');
  }
}

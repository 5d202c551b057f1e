/** `buildDependencyGraph` end to end, and what its three formats promise about one project. */
module GraphService {
  import opened Sorting
  import opened ProjectGraph
  import opened Topology
  import opened Unfolding
  import opened TextLines
  import opened Outlines
  import opened Coverage

  const MAX_PAGE_LIMIT: nat := 500

  datatype Format = TreeFormat | GraphFormat | TextFormat

  datatype Response =
    | TreeResponse(roots: seq<TreeNode>, topology: Label, totalTasks: nat, totalEdges: nat, truncated: bool)
    | GraphResponse(nodes: seq<Task>, edges: seq<Edge>, topology: Label, totalTasks: nat, totalEdges: nat)
    | TextResponse(lines: seq<string>, topology: Label, totalTasks: nat, totalEdges: nat, truncated: bool)

  // --- the bulk read --------------------------------------------------------------------------

  /** One page of the task table in its listing order. */
  function Page(stored: seq<Task>, offset: nat): seq<Task> {
    if offset >= |stored| then []
    else if offset + MAX_PAGE_LIMIT <= |stored| then stored[offset..offset + MAX_PAGE_LIMIT]
    else stored[offset..]
  }

  /** The paging loop: with a count that is not too low it returns the whole table, in order; a count
      that drifted too high only costs one empty page. */
  method LoadTasks(stored: seq<Task>, expectedTotal: nat) returns (tasks: seq<Task>)
    ensures tasks <= stored
    ensures expectedTotal >= |stored| ==> tasks == stored
    ensures expectedTotal < |stored| ==> expectedTotal <= |tasks| < expectedTotal + 500
  {
    tasks := [];
    var offset := 0;
    while |tasks| < expectedTotal
      invariant offset == |tasks| && tasks <= stored
      invariant |tasks| < expectedTotal + MAX_PAGE_LIMIT
      decreases |stored| - |tasks|, if |tasks| < expectedTotal then 1 else 0
    {
      var page := Page(stored, offset);
      if |page| == 0 {
        break;
      }
      tasks := tasks + page;
      offset := offset + |page|;
    }
  }

  // --- the tables and the roots -----------------------------------------------------------------

  ghost function ContextOf(tasks: seq<Task>, edges: seq<Edge>): Context {
    var table := TaskTable(tasks);
    Context(map id <- Ids(tasks) :: Sort(ListingOrder(table), Targets(edges, id)),
            table,
            map id <- Ids(tasks) :: InDegree(edges, id))
  }

  /** The ids nothing points at, in listing order of the table. */
  function Sources(tasks: seq<Task>, inDegree: map<int, int>): seq<int>
    requires forall t <- tasks :: t.id in inDegree
  {
    if tasks == [] then []
    else
      var t := tasks[|tasks| - 1];
      assert t in tasks && forall u <- tasks[..|tasks| - 1] :: u in tasks;
      Sources(tasks[..|tasks| - 1], inDegree) + if inDegree[t.id] == 0 then [t.id] else []
  }

  function AllIds(tasks: seq<Task>): seq<int> {
    seq(|tasks|, i requires 0 <= i < |tasks| => tasks[i].id)
  }

  /** The in-degree-0 tasks, or one synthetic root when there is none. */
  function RootIds(tasks: seq<Task>, inDegree: map<int, int>): seq<int>
    requires forall t <- tasks :: t.id in inDegree
  {
    var order := ListingOrder(TaskTable(tasks));
    var roots := Sort(order, Sources(tasks, inDegree));
    if roots == [] && tasks != [] then
      var all := Sort(order, AllIds(tasks));
      if all == [] then roots else [all[0]]
    else roots
  }

  lemma {:induction false} SourcesExact(tasks: seq<Task>, inDegree: map<int, int>, id: int)
    requires forall t <- tasks :: t.id in inDegree
    ensures id in Sources(tasks, inDegree) <==> id in Ids(tasks) && inDegree[id] == 0
  {
    if tasks != [] {
      var init, last := tasks[..|tasks| - 1], tasks[|tasks| - 1];
      assert tasks == init + [last];
      assert Ids(tasks) == Ids(init) + {last.id};
      SourcesExact(init, inDegree, id);
    }
  }

  ghost predicate HasSource(tasks: seq<Task>, inDegree: map<int, int>)
    requires forall t <- tasks :: t.id in inDegree
  {
    Sources(tasks, inDegree) != []
  }

  lemma SourceExists(tasks: seq<Task>, inDegree: map<int, int>)
    requires forall t <- tasks :: t.id in inDegree
    ensures HasSource(tasks, inDegree) <==> exists r :: r in Ids(tasks) && inDegree[r] == 0
  {
    var sources := Sources(tasks, inDegree);
    if sources != [] {
      assert sources[0] in sources;
      SourcesExact(tasks, inDegree, sources[0]);
    }
    if r :| r in Ids(tasks) && inDegree[r] == 0 {
      SourcesExact(tasks, inDegree, r);
    }
  }

  lemma RootsAreTasks(tasks: seq<Task>, inDegree: map<int, int>, r: int)
    requires forall t <- tasks :: t.id in inDegree
    requires r in RootIds(tasks, inDegree)
    ensures r in Ids(tasks)
  {
    var order := ListingOrder(TaskTable(tasks));
    var sources, all := Sources(tasks, inDegree), AllIds(tasks);
    SameElements(Sort(order, sources), sources);
    SameElements(Sort(order, all), all);
    if r in sources {
      SourcesExact(tasks, inDegree, r);
    } else {
      assert r in all;
      var i :| 0 <= i < |tasks| && tasks[i].id == r;
      assert tasks[i] in tasks;
    }
  }

  /** A project with tasks always has a root to show; without sources it is a single task. */
  lemma RootsExist(tasks: seq<Task>, inDegree: map<int, int>)
    requires forall t <- tasks :: t.id in inDegree
    ensures RootIds(tasks, inDegree) == [] <==> tasks == []
    ensures HasSource(tasks, inDegree) ==> multiset(RootIds(tasks, inDegree)) == multiset(Sources(tasks, inDegree))
    ensures !HasSource(tasks, inDegree) ==> |RootIds(tasks, inDegree)| <= 1
  {
    var order := ListingOrder(TaskTable(tasks));
    SameElements(Sort(order, Sources(tasks, inDegree)), Sources(tasks, inDegree));
    SameElements(Sort(order, AllIds(tasks)), AllIds(tasks));
  }

  lemma ChildrenAreSound(tasks: seq<Task>, edges: seq<Edge>, id: int)
    requires InProject(tasks, edges) && id in Ids(tasks)
    ensures AllKnown(ContextOf(tasks, edges), ContextOf(tasks, edges).children[id])
    ensures ListsTargets(ContextOf(tasks, edges), edges, id)
  {
    var ctx := ContextOf(tasks, edges);
    SameElements(ctx.children[id], Targets(edges, id));
    forall c | c in ctx.children[id] ensures c in ctx.table {
      TargetsComplete(edges, id, c);
    }
  }

  lemma ContextIsSound(tasks: seq<Task>, edges: seq<Edge>)
    requires InProject(tasks, edges)
    ensures FromEdges(ContextOf(tasks, edges), edges)
    ensures AllKnown(ContextOf(tasks, edges), RootIds(tasks, ContextOf(tasks, edges).inDegree))
  {
    var ctx := ContextOf(tasks, edges);
    assert ctx.children.Keys == Ids(tasks) && ctx.inDegree.Keys == Ids(tasks);
    forall id | id in ctx.children ensures AllKnown(ctx, ctx.children[id]) && ListsTargets(ctx, edges, id) {
      ChildrenAreSound(tasks, edges, id);
    }
    forall r | r in RootIds(tasks, ctx.inDegree) ensures r in ctx.table {
      RootsAreTasks(tasks, ctx.inDegree, r);
    }
  }

  lemma TablesAreContext(tasks: seq<Task>, edges: seq<Edge>, adj: map<int, seq<int>>, inDegree: map<int, int>)
    requires adj.Keys == Ids(tasks) && inDegree.Keys == Ids(tasks)
    requires forall id <- adj :: adj[id] == Targets(edges, id)
    requires forall id <- inDegree :: inDegree[id] == InDegree(edges, id)
    ensures ContextOf(tasks, edges) ==
            Context(map id <- adj :: Sort(ListingOrder(TaskTable(tasks)), adj[id]), TaskTable(tasks), inDegree)
  {
  }

  /** What the tables are, told by tasks and edges: every task under its id; for every task the tasks it blocks, once
      for every edge, in listing order; and the number of edges into it. */
  ghost predicate Tabulates(ctx: Context, tasks: seq<Task>, edges: seq<Edge>) {
    && ctx.table.Keys == ctx.children.Keys == ctx.inDegree.Keys == Ids(tasks)
    && (DistinctIds(tasks) ==> forall t <- tasks :: t.id in ctx.table && ctx.table[t.id] == t)
    && (forall id <- ctx.children :: WellListed(ctx.table, ctx.children[id]))
    && (forall id, c :: id in ctx.children ==> multiset(ctx.children[id])[c] == multiset(edges)[Edge(id, c)])
    && (forall id <- ctx.inDegree :: ctx.inDegree[id] == |EdgesInto(edges, id)|)
  }

  lemma ContextTabulates(tasks: seq<Task>, edges: seq<Edge>)
    requires InProject(tasks, edges)
    ensures Tabulates(ContextOf(tasks, edges), tasks, edges)
  {
    var ctx := ContextOf(tasks, edges);
    if DistinctIds(tasks) {
      forall t | t in tasks ensures ctx.table[t.id] == t { TableHolds(tasks, t); }
    }
    forall id | id in Ids(tasks) ensures WellListed(ctx.table, ctx.children[id]) {
      ChildrenAreListed(tasks, edges, id);
    }
    forall id, c | id in Ids(tasks) ensures multiset(ctx.children[id])[c] == multiset(edges)[Edge(id, c)] {
      TargetCount(edges, id, c);
    }
    forall id | id in Ids(tasks) ensures ctx.inDegree[id] == |EdgesInto(edges, id)| { InDegreeCounts(edges, id); }
  }

  lemma ChildrenAreListed(tasks: seq<Task>, edges: seq<Edge>, id: int)
    requires InProject(tasks, edges) && id in Ids(tasks)
    ensures WellListed(TaskTable(tasks), Sort(ListingOrder(TaskTable(tasks)), Targets(edges, id)))
  {
    forall c | c in Targets(edges, id) ensures c in TaskTable(tasks) { TargetsComplete(edges, id, c); }
    SortIsWellListed(TaskTable(tasks), Targets(edges, id));
  }

  /** The roots are in listing order, and a synthetic root is a task that no other task belongs ahead of. */
  lemma RootsAreListed(tasks: seq<Task>, inDegree: map<int, int>)
    requires DistinctIds(tasks) && forall t <- tasks :: t.id in inDegree
    ensures WellListed(TaskTable(tasks), RootIds(tasks, inDegree))
    ensures !HasSource(tasks, inDegree) && tasks != [] ==>
              exists root :: && root in tasks && RootIds(tasks, inDegree) == [root.id]
                             && forall t <- tasks :: !Ahead(t, root)
  {
    var table := TaskTable(tasks);
    forall id | id in Sources(tasks, inDegree) ensures id in table { SourcesExact(tasks, inDegree, id); }
    SortIsWellListed(table, Sources(tasks, inDegree));
    if !HasSource(tasks, inDegree) && tasks != [] { SyntheticRootLeads(tasks, inDegree); }
  }

  lemma SyntheticRootLeads(tasks: seq<Task>, inDegree: map<int, int>)
    requires DistinctIds(tasks) && forall t <- tasks :: t.id in inDegree
    requires !HasSource(tasks, inDegree) && tasks != []
    ensures exists root :: && root in tasks && RootIds(tasks, inDegree) == [root.id]
                           && forall t <- tasks :: !Ahead(t, root)
    ensures WellListed(TaskTable(tasks), RootIds(tasks, inDegree))
  {
    var order := ListingOrder(TaskTable(tasks));
    SameElements(Sort(order, Sources(tasks, inDegree)), Sources(tasks, inDegree));
    var root := FirstOfAll(tasks);
    assert RootIds(tasks, inDegree) == [root.id];
  }

  /** The first of all tasks in listing order is one that no other task belongs ahead of. */
  lemma FirstOfAll(tasks: seq<Task>) returns (root: Task)
    requires DistinctIds(tasks) && tasks != []
    ensures root in tasks && forall t <- tasks :: !Ahead(t, root)
    ensures var all := Sort(ListingOrder(TaskTable(tasks)), AllIds(tasks)); all != [] && all[0] == root.id
  {
    var table := TaskTable(tasks);
    var all := Sort(ListingOrder(table), AllIds(tasks));
    SameElements(all, AllIds(tasks));
    forall id | id in AllIds(tasks) ensures id in table { var t := IdIsTask(tasks, id); }
    SortIsWellListed(table, AllIds(tasks));
    assert all[0] in AllIds(tasks);
    root := IdIsTask(tasks, all[0]);
    TableHolds(tasks, root);
    forall t | t in tasks ensures !Ahead(t, root) {
      TableHolds(tasks, t);
      IdIsListed(tasks, t);
      FirstIsNotBeaten(table, all, t.id);
    }
  }

  lemma FirstIsNotBeaten(table: map<int, Task>, all: seq<int>, id: int)
    requires WellListed(table, all) && id in all
    ensures all[0] in table && id in table && !Ahead(table[id], table[all[0]])
  {
    var j :| 0 <= j < |all| && all[j] == id;
    if j == 0 { assert !Ahead(table[id], table[id]); }
  }

  lemma IdIsListed(tasks: seq<Task>, t: Task)
    requires t in tasks
    ensures t.id in AllIds(tasks)
  {
    var k :| 0 <= k < |tasks| && tasks[k] == t;
    assert AllIds(tasks)[k] == t.id;
  }

  lemma IdIsTask(tasks: seq<Task>, id: int) returns (t: Task)
    requires id in AllIds(tasks)
    ensures t in tasks && t.id == id
  {
    var k :| 0 <= k < |tasks| && AllIds(tasks)[k] == id;
    t := tasks[k];
  }

  method BuildContext(tasks: seq<Task>, edges: seq<Edge>) returns (ctx: Context)
    requires InProject(tasks, edges)
    ensures ctx == ContextOf(tasks, edges)
    ensures Tabulates(ctx, tasks, edges)
  {
    var adj := BuildAdjacency(tasks, edges);
    var inDegree := BuildInDegree(tasks, edges);
    var table := TaskTable(tasks);
    var order := ListingOrder(table);
    var children := map id <- adj :: Sort(order, adj[id]);
    TablesAreContext(tasks, edges, adj, inDegree);
    ctx := Context(children, table, inDegree);
    assert ctx == ContextOf(tasks, edges);
    ContextTabulates(tasks, edges);
  }

  // --- the service --------------------------------------------------------------------------------

  ghost function AllRows(tasks: seq<Task>, edges: seq<Edge>): seq<Row>
    requires InProject(tasks, edges)
  {
    ContextIsSound(tasks, edges);
    var ctx := ContextOf(tasks, edges);
    Forest(ctx, RootIds(tasks, ctx.inDegree))
  }

  predicate IdOrder(a: Task, b: Task) { a.id <= b.id }

  predicate EdgeOrder(a: Edge, b: Edge) { a.src < b.src || (a.src == b.src && a.dst <= b.dst) }

  /** What a response must be for the given rows of the database. */
  ghost predicate Answers(tasks: seq<Task>, deps: seq<Edge>, format: Format, r: Response) {
    var edges := InProjectOnly(tasks, deps);
    var ctx := ContextOf(tasks, edges);
    var rows := AllRows(tasks, edges);
    && r.totalTasks == |tasks| && r.totalEdges == |edges|
    && (r.topology.Flat? <==> edges == [])
    && (r.topology.Dag? <==> edges != [] && HasRanking(edges))
    && (r.topology.DagCyclic? <==> HasCycle(edges))
    && match format {
      case TreeFormat => r.TreeResponse? && CappedTree(ctx, r.roots, rows, MAX_TREE_NODES, 0)
                         && (r.truncated <==> TreeCut(rows, MAX_TREE_NODES))
      case TextFormat => r.TextResponse? && Known(ctx, rows) && r.lines == Lines(ctx, Take(rows, MAX_TREE_NODES))
                         && (r.truncated <==> |rows| > MAX_TREE_NODES)
      case GraphFormat => r.GraphResponse?
                          && multiset(r.nodes) == multiset(tasks) && Ordered(IdOrder, r.nodes)
                          && multiset(r.edges) == multiset(edges) && Ordered(EdgeOrder, r.edges)
    }
  }

  method BuildDependencyGraph(tasks: seq<Task>, deps: seq<Edge>, format: Format) returns (r: Response)
    requires DistinctIds(tasks)
    ensures Answers(tasks, deps, format, r)
  {
    var edges := InProjectOnly(tasks, deps);
    if format == GraphFormat {
      var nodes, sortedEdges := Sort(IdOrder, tasks), Sort(EdgeOrder, edges);
      SortedForGraph(tasks, edges);
      var graphTopology := ClassifyTopologyInline(tasks, edges);
      return GraphResponse(nodes, sortedEdges, graphTopology, |tasks|, |edges|);
    }
    var ctx := BuildContext(tasks, edges);
    ContextIsSound(tasks, edges);
    var rootIds := RootIds(tasks, ctx.inDegree);
    var topology := ClassifyFromInDegree(tasks, edges, ctx.inDegree);
    var counter := new TreeCounter();
    if format == TextFormat {
      var renderer := new TextRenderer(ctx, counter);
      renderer.RenderTextLines(rootIds);
      return TextResponse(renderer.out, topology, |tasks|, |edges|, counter.truncated);
    }
    var roots := BuildForest(rootIds, ctx, counter);
    r := TreeResponse(roots, topology, |tasks|, |edges|, counter.truncated);
  }

  lemma SortedForGraph(tasks: seq<Task>, edges: seq<Edge>)
    requires DistinctIds(tasks)
    ensures Ordered(IdOrder, Sort(IdOrder, tasks)) && Ordered(EdgeOrder, Sort(EdgeOrder, edges))
  {
    var ts, es := set t <- tasks, set e <- edges;
    assert TotalOn(IdOrder, ts);
    SortIsOrdered(IdOrder, tasks, ts);
    SortIsOrdered(EdgeOrder, edges, es);
  }

  /** The graph format lists tasks by rising id, and edges by rising source, then rising target. */
  lemma GraphIsListedById(tasks: seq<Task>, deps: seq<Edge>, graph: Response)
    requires DistinctIds(tasks) && Answers(tasks, deps, GraphFormat, graph)
    ensures forall i, j :: 0 <= i < j < |graph.nodes| ==> graph.nodes[i].id <= graph.nodes[j].id
    ensures forall i, j :: 0 <= i < j < |graph.edges| ==>
              var a, b := graph.edges[i], graph.edges[j];
              a.src < b.src || (a.src == b.src && a.dst <= b.dst)
  {
    forall i, j | 0 <= i < j < |graph.nodes| ensures graph.nodes[i].id <= graph.nodes[j].id {
      assert IdOrder(graph.nodes[i], graph.nodes[j]);
    }
    forall i, j | 0 <= i < j < |graph.edges|
      ensures var a, b := graph.edges[i], graph.edges[j]; a.src < b.src || (a.src == b.src && a.dst <= b.dst)
    {
      assert EdgeOrder(graph.edges[i], graph.edges[j]);
    }
  }

  // --- the promises across formats --------------------------------------------------------------

  /** The tree and the text of one project are the same forest, cut at the same node. */
  lemma FormatsAgree(tasks: seq<Task>, deps: seq<Edge>, tree: Response, text: Response)
    requires Answers(tasks, deps, TreeFormat, tree) && Answers(tasks, deps, TextFormat, text)
    ensures Fold(ReadLines(text.lines), 0) == (Shapes(tree.roots), [])
    ensures |text.lines| == |FlattenAll(tree.roots)| <= MAX_TREE_NODES
    ensures forall i :: 0 <= i < |text.lines| ==> ReadLine(text.lines[i]).id == FlattenAll(tree.roots)[i].id
    ensures tree.topology == text.topology
  {
    var edges := InProjectOnly(tasks, deps);
    ContextIsSound(tasks, edges);
    TextFoldsToTree(ContextOf(tasks, edges), AllRows(tasks, edges), tree.roots, text.lines);
    if HasRanking(edges) { RankingExcludesCycle(edges); }
  }

  /** The two flags differ in one case only: the cap falls exactly on the last row and that row is not
      a revisit. Then the tree claims truncation although nothing is missing. */
  lemma FlagsDiffer(tasks: seq<Task>, deps: seq<Edge>, tree: Response, text: Response)
    requires Answers(tasks, deps, TreeFormat, tree) && Answers(tasks, deps, TextFormat, text)
    ensures text.truncated ==> tree.truncated
    ensures text.truncated <==> |AllRows(tasks, InProjectOnly(tasks, deps))| > |text.lines|
    ensures tree.truncated ==> |FlattenAll(tree.roots)| == MAX_TREE_NODES
    ensures tree.truncated != text.truncated <==>
            var rows := AllRows(tasks, InProjectOnly(tasks, deps));
            |rows| == MAX_TREE_NODES && !rows[MAX_TREE_NODES - 1].revisit
  {
  }

  /** Without children every root is one row. */
  lemma {:induction false} LeafRows(ctx: Context, ids: seq<int>, k: nat)
    requires ClosedContext(ctx) && AllKnown(ctx, ids) && k <= |ids| && forall id <- ids :: ctx.children[id] == []
    ensures |Roots(ctx, ids, k)| == k && forall i :: 0 <= i < k ==> !Roots(ctx, ids, k)[i].revisit
  {
    if k > 0 {
      LeafRows(ctx, ids, k - 1);
      assert ids[k - 1] in ids;
      assert Unfold(ctx, ids[k - 1], [], {}) == [Row(ids[k - 1], [], false)];
    }
  }

  lemma {:induction false} EveryTaskIsSource(tasks: seq<Task>, inDegree: map<int, int>)
    requires forall t <- tasks :: t.id in inDegree && inDegree[t.id] == 0
    ensures |Sources(tasks, inDegree)| == |tasks|
  {
    if tasks != [] {
      assert tasks[|tasks| - 1] in tasks;
      EveryTaskIsSource(tasks[..|tasks| - 1], inDegree);
    }
  }

  /** A project without dependencies has one row for each task. */
  lemma FlatProjectRows(tasks: seq<Task>)
    requires InProject(tasks, []) && tasks != []
    ensures |AllRows(tasks, [])| == |tasks| && forall i :: 0 <= i < |tasks| ==> !AllRows(tasks, [])[i].revisit
  {
    var ctx := ContextOf(tasks, []);
    var rootIds := RootIds(tasks, ctx.inDegree);
    ContextIsSound(tasks, []);
    EveryTaskIsSource(tasks, ctx.inDegree);
    RootsExist(tasks, ctx.inDegree);
    SameElements(rootIds, Sources(tasks, ctx.inDegree));
    LeafRows(ctx, rootIds, |rootIds|);
  }

  /** A thousand tasks that nothing connects. */
  function ThousandTasks(): (tasks: seq<Task>)
    ensures |tasks| == MAX_TREE_NODES && DistinctIds(tasks)
  {
    seq(MAX_TREE_NODES, i requires 0 <= i < MAX_TREE_NODES => Task(i + 1, "task", Open, Medium, i))
  }

  /** There the tree claims truncation although it shows every task, and the text does not. */
  lemma FlagsDifferOnThousandTasks(tree: Response, text: Response)
    requires Answers(ThousandTasks(), [], TreeFormat, tree) && Answers(ThousandTasks(), [], TextFormat, text)
    ensures tree.truncated && !text.truncated
    ensures |FlattenAll(tree.roots)| == |text.lines| == MAX_TREE_NODES
  {
    FlatProjectRows(ThousandTasks());
  }

  /** The number of nodes of the tree that show `t` at depth `depth`. */
  function TimesShown(nodes: seq<TreeNode>, t: int, depth: nat): nat {
    if nodes == [] then 0
    else
      var last := nodes[|nodes| - 1];
      TimesShown(nodes[..|nodes| - 1], t, depth) + if last.id == t && last.depth == depth then 1 else 0
  }

  lemma {:induction false} TimesShownIsOccurrences(ctx: Context, rows: seq<Row>, t: int, depth: nat)
    requires Known(ctx, rows)
    ensures TimesShown(Nodes(ctx, rows), t, depth) == Occurrences(rows, t, depth)
  {
    if rows != [] {
      TimesShownIsOccurrences(ctx, rows[..|rows| - 1], t, depth);
      assert Nodes(ctx, rows)[..|rows| - 1] == Nodes(ctx, rows[..|rows| - 1]);
    }
  }

  /** In an acyclic project every task is below some root. */
  lemma AcyclicRootReaches(tasks: seq<Task>, edges: seq<Edge>, rank: map<int, nat>, t: int) returns (r: int)
    requires InProject(tasks, edges) && IsRanking(edges, rank) && t in Ids(tasks)
    ensures HasSource(tasks, ContextOf(tasks, edges).inDegree)
    ensures r in RootIds(tasks, ContextOf(tasks, edges).inDegree) && Reaches(edges, r, t)
  {
    var inDegree := ContextOf(tasks, edges).inDegree;
    r := ReachableFromSource(edges, rank, t);
    assert r in Ids(tasks);
    assert inDegree[r] == 0;
    SourceExists(tasks, inDegree);
    RootsExist(tasks, inDegree);
    SourcesExact(tasks, inDegree, r);
    SameElements(RootIds(tasks, inDegree), Sources(tasks, inDegree));
  }

  /** The rows of an acyclic project: each task once per path from the tasks nothing blocks. */
  lemma AcyclicRows(tasks: seq<Task>, edges: seq<Edge>, t: int, d: nat)
    requires InProject(tasks, edges) && HasRanking(edges) && t in Ids(tasks)
    ensures Occurrences(AllRows(tasks, edges), t, d) ==
            WalkCounts(edges, Sources(tasks, ContextOf(tasks, edges).inDegree), d, t)
    ensures Shows(AllRows(tasks, edges), t)
  {
    var ctx := ContextOf(tasks, edges);
    var rootIds := RootIds(tasks, ctx.inDegree);
    var rank :| IsRanking(edges, rank);
    ContextIsSound(tasks, edges);
    var r := AcyclicRootReaches(tasks, edges, rank, t);
    ShownIffReachable(ctx, edges, rootIds, t);
    RootsExist(tasks, ctx.inDegree);
    ShownOncePerPath(ctx, edges, rank, rootIds, Sources(tasks, ctx.inDegree), t, d);
  }

  /** On any project, cyclic or not: an untruncated tree shows a task, at every depth `d`, exactly as often as there
      are branches of `d` edges to it from the roots, a branch ending at the first task it has already passed. */
  lemma TreeShowsEveryBranch(tasks: seq<Task>, deps: seq<Edge>, tree: Response, t: int, d: nat)
    requires Answers(tasks, deps, TreeFormat, tree) && !tree.truncated
    ensures var edges := InProjectOnly(tasks, deps);
            TimesShown(FlattenAll(tree.roots), t, d) ==
            BranchCounts(edges, RootIds(tasks, ContextOf(tasks, edges).inDegree), d, t, {})
  {
    var edges := InProjectOnly(tasks, deps);
    RowsShowEveryBranch(tasks, edges, t, d);
    TimesShownIsOccurrences(ContextOf(tasks, edges), AllRows(tasks, edges), t, d);
  }

  lemma RowsShowEveryBranch(tasks: seq<Task>, edges: seq<Edge>, t: int, d: nat)
    requires InProject(tasks, edges)
    ensures Occurrences(AllRows(tasks, edges), t, d) ==
            BranchCounts(edges, RootIds(tasks, ContextOf(tasks, edges).inDegree), d, t, {})
  {
    var ctx := ContextOf(tasks, edges);
    ContextIsSound(tasks, edges);
    ShownOncePerBranch(ctx, edges, RootIds(tasks, ctx.inDegree), RootIds(tasks, ctx.inDegree), t, d);
  }

  /** The number of lines that name `t` at depth `depth`. */
  function TimesRead(lines: seq<string>, t: int, depth: nat): nat {
    if lines == [] then 0
    else
      TimesRead(lines[..|lines| - 1], t, depth) + if ReadLine(lines[|lines| - 1]) == Item(depth, t) then 1 else 0
  }

  lemma {:induction false} TimesReadIsOccurrences(ctx: Context, rows: seq<Row>, t: int, depth: nat)
    requires ClosedContext(ctx) && Known(ctx, rows)
    ensures TimesRead(Lines(ctx, rows), t, depth) == Occurrences(rows, t, depth)
  {
    if rows != [] {
      var init, last := rows[..|rows| - 1], rows[|rows| - 1];
      TimesReadIsOccurrences(ctx, init, t, depth);
      assert Lines(ctx, rows)[..|rows| - 1] == Lines(ctx, init);
      LineReadsBack(ctx.table[last.id], last.trail);
    }
  }

  /** The same of an untruncated text, read line by line. */
  lemma TextShowsEveryBranch(tasks: seq<Task>, deps: seq<Edge>, text: Response, t: int, d: nat)
    requires Answers(tasks, deps, TextFormat, text) && !text.truncated
    ensures var edges := InProjectOnly(tasks, deps);
            TimesRead(text.lines, t, d) ==
            BranchCounts(edges, RootIds(tasks, ContextOf(tasks, edges).inDegree), d, t, {})
  {
    var edges := InProjectOnly(tasks, deps);
    ContextIsSound(tasks, edges);
    RowsShowEveryBranch(tasks, edges, t, d);
    TimesReadIsOccurrences(ContextOf(tasks, edges), AllRows(tasks, edges), t, d);
  }

  /** In an acyclic project that was not truncated, every task appears, and at every depth `d` exactly
      as often as there are paths of `d` edges to it from the tasks nothing blocks. */
  lemma AcyclicShowsEveryPath(tasks: seq<Task>, deps: seq<Edge>, tree: Response, t: Task, d: nat)
    requires Answers(tasks, deps, TreeFormat, tree)
    requires !tree.topology.DagCyclic? && !tree.truncated && t in tasks
    ensures var edges := InProjectOnly(tasks, deps);
            TimesShown(FlattenAll(tree.roots), t.id, d) ==
            WalkCounts(edges, Sources(tasks, ContextOf(tasks, edges).inDegree), d, t.id)
    ensures exists i :: 0 <= i < |FlattenAll(tree.roots)| && FlattenAll(tree.roots)[i].id == t.id
  {
    var edges := InProjectOnly(tasks, deps);
    var rows := AllRows(tasks, edges);
    assert HasRanking(edges) by {
      if edges == [] { assert IsRanking(edges, map[]); }
    }
    AcyclicRows(tasks, edges, t.id, d);
    var i :| 0 <= i < |rows| && rows[i].id == t.id;
    assert FlattenAll(tree.roots)[i].id == t.id;
    TimesShownIsOccurrences(ContextOf(tasks, edges), rows, t.id, d);
  }

  /** On any project, cyclic or not: an untruncated text shows a task if and only if a root reaches it. */
  lemma TextShowsReachable(tasks: seq<Task>, deps: seq<Edge>, text: Response, id: int)
    requires Answers(tasks, deps, TextFormat, text) && !text.truncated
    ensures NamesTask(text.lines, id) <==> ReachableFromRoots(tasks, InProjectOnly(tasks, deps), id)
  {
    var edges := InProjectOnly(tasks, deps);
    RowsShowReachable(tasks, edges, id);
    LinesShowRows(ContextOf(tasks, edges), AllRows(tasks, edges), id);
  }

  /** Some line is about the task. */
  predicate NamesTask(lines: seq<string>, id: int) {
    exists i :: 0 <= i < |lines| && ReadLine(lines[i]).id == id
  }

  ghost predicate ReachableFromRoots(tasks: seq<Task>, edges: seq<Edge>, id: int) {
    exists r :: r in RootIds(tasks, ContextOf(tasks, edges).inDegree) && Reaches(edges, r, id)
  }

  lemma RowsShowReachable(tasks: seq<Task>, edges: seq<Edge>, id: int)
    requires InProject(tasks, edges)
    ensures Shows(AllRows(tasks, edges), id) <==> ReachableFromRoots(tasks, edges, id)
  {
    var ctx := ContextOf(tasks, edges);
    ContextIsSound(tasks, edges);
    ShownIffReachable(ctx, edges, RootIds(tasks, ctx.inDegree), id);
  }

  lemma LinesShowRows(ctx: Context, rows: seq<Row>, id: int)
    requires Known(ctx, rows) && forall t <- ctx.table :: ctx.table[t].id == t
    ensures NamesTask(Lines(ctx, rows), id) <==> Shows(rows, id)
  {
    forall i | 0 <= i < |rows| ensures ReadLine(Lines(ctx, rows)[i]).id == rows[i].id {
      LineReadsBack(ctx.table[rows[i].id], rows[i].trail);
    }
  }
}

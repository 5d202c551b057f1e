/** The responses told by the nodes of a tree alone: what the children of a node are, and how a tree is drawn. The
    walks are compared with this through their preorder. */
module Expansion {
  import opened Sequences
  import opened ProjectGraph
  import opened Unfolding
  import opened TextLines
  import opened Outlines
  import opened Coverage
  import opened GraphService
  import opened Determinism

  function NodeIds(nodes: seq<TreeNode>): seq<int> {
    seq(|nodes|, i requires 0 <= i < |nodes| => nodes[i].id)
  }

  /** A node tells its task: title, status and priority, and how many edges lead to it. */
  ghost predicate TellsTask(tasks: seq<Task>, edges: seq<Edge>, node: TreeNode) {
    && node.blockedByCount == |EdgesInto(edges, node.id)|
    && exists t :: && t in tasks && t.id == node.id && t.title == node.title
                   && t.status == node.status && t.priority == node.priority
  }

  /** Below a node are the tasks it blocks, once for every edge and in listing order; and none when the node is already
      on its branch. */
  ghost predicate Expands(tasks: seq<Task>, edges: seq<Edge>, node: TreeNode, branch: set<int>)
    decreases node, 0
  {
    && TellsTask(tasks, edges, node)
    && (node.id in branch ==> node.children == [])
    && (node.id !in branch ==>
          && (forall c :: multiset(NodeIds(node.children))[c] == multiset(edges)[Edge(node.id, c)])
          && WellListed(TaskTable(tasks), NodeIds(node.children)))
    && AllExpand(tasks, edges, node.children, branch + {node.id})
  }

  ghost predicate AllExpand(tasks: seq<Task>, edges: seq<Edge>, nodes: seq<TreeNode>, branch: set<int>)
    decreases nodes, 1
  {
    forall i :: 0 <= i < |nodes| ==> Expands(tasks, edges, nodes[i], branch)
  }

  // --- drawing a tree ---------------------------------------------------------------------------------

  function Label(node: TreeNode): string {
    var number := if node.id < 0 then "-" + Decimal(-node.id) else Decimal(node.id);
    "#" + number + " " + [Glyph(node.status)] + " " + node.title + " (" + PriorityName(node.priority) + ")"
  }

  /** The lines of the first `k` of some siblings, each followed by the lines below it: an elbow for the last sibling
      and a tee for the others, and a trunk below everything but the last. */
  function DrawBelow(siblings: seq<TreeNode>, k: nat, prefix: string): seq<string>
    requires k <= |siblings|
    decreases siblings, k
  {
    if k == 0 then []
    else
      var node := siblings[k - 1];
      var connector := if k == |siblings| then "\U{2514}\U{2500}\U{2500}" else "\U{251C}\U{2500}\U{2500}";
      var trunk := if k == |siblings| then "    " else "\U{2502}   ";
      DrawBelow(siblings, k - 1, prefix)
      + ([prefix + connector + " " + Label(node)] + DrawBelow(node.children, |node.children|, prefix + trunk))
  }

  /** The lines of a forest: bare roots, each followed by the lines below it. */
  function Drawn(roots: seq<TreeNode>): seq<string> {
    if roots == [] then []
    else
      var root := roots[|roots| - 1];
      Drawn(roots[..|roots| - 1]) + ([Label(root)] + DrawBelow(root.children, |root.children|, ""))
  }

  // --- the whole tree ---------------------------------------------------------------------------------

  /** The tree of the unbounded unfolding. */
  ghost function TreeOf(ctx: Context, id: int, depth: nat, branch: set<int>): TreeNode
    requires ClosedContext(ctx) && id in ctx.table
    decreases ctx.table.Keys - branch, 0, 0
  {
    if id in branch then Bare(ctx, id, depth)
    else
      assert id in ctx.table.Keys - branch;
      Bare(ctx, id, depth).(children := TreesOf(ctx, ctx.children[id], |ctx.children[id]|, depth + 1, branch + {id}))
  }

  ghost function TreesOf(ctx: Context, ids: seq<int>, k: nat, depth: nat, branch: set<int>): (trees: seq<TreeNode>)
    requires ClosedContext(ctx) && AllKnown(ctx, ids) && k <= |ids|
    ensures |trees| == k && forall i :: 0 <= i < k ==> trees[i].id == ids[i]
    decreases ctx.table.Keys - branch, 1, k
  {
    if k == 0 then []
    else TreesOf(ctx, ids, k - 1, depth, branch) + [TreeOf(ctx, ids[k - 1], depth, branch)]
  }

  lemma {:induction false} TreeFlattens(ctx: Context, id: int, trail: seq<bool>, branch: set<int>)
    requires ClosedContext(ctx) && id in ctx.table
    ensures Known(ctx, Unfold(ctx, id, trail, branch))
    ensures Flatten(TreeOf(ctx, id, |trail|, branch)) == Nodes(ctx, Unfold(ctx, id, trail, branch))
    ensures Nested(TreeOf(ctx, id, |trail|, branch), |trail|)
    decreases ctx.table.Keys - branch, 0, 0
  {
    UnfoldKnown(ctx, id, trail, branch);
    if id !in branch {
      assert id in ctx.table.Keys - branch;
      var ids := ctx.children[id];
      KidsFlatten(ctx, ids, |ids|, trail, branch + {id});
      NodesOfFirst(ctx, Row(id, trail, false), Kids(ctx, ids, |ids|, trail, branch + {id}));
    }
  }

  lemma NodesOfFirst(ctx: Context, row: Row, rows: seq<Row>)
    requires Known(ctx, [row] + rows) && Known(ctx, rows) && row.id in ctx.table && row.id in ctx.inDegree
    ensures Nodes(ctx, [row] + rows) == [Bare(ctx, row.id, |row.trail|)] + Nodes(ctx, rows)
  {
  }

  lemma NodesConcat(ctx: Context, a: seq<Row>, b: seq<Row>)
    requires Known(ctx, a) && Known(ctx, b)
    ensures Known(ctx, a + b) && Nodes(ctx, a + b) == Nodes(ctx, a) + Nodes(ctx, b)
  {
  }

  lemma {:induction false} KidsFlatten(ctx: Context, ids: seq<int>, k: nat, trail: seq<bool>, branch: set<int>)
    requires ClosedContext(ctx) && AllKnown(ctx, ids) && k <= |ids|
    ensures Known(ctx, Kids(ctx, ids, k, trail, branch))
    ensures FlattenAll(TreesOf(ctx, ids, k, |trail| + 1, branch)) == Nodes(ctx, Kids(ctx, ids, k, trail, branch))
    ensures AllNested(TreesOf(ctx, ids, k, |trail| + 1, branch), |trail| + 1)
    decreases ctx.table.Keys - branch, 1, k
  {
    if k > 0 {
      var childTrail := trail + [k == |ids|];
      KidsFlatten(ctx, ids, k - 1, trail, branch);
      TreeFlattens(ctx, ids[k - 1], childTrail, branch);
      NodesConcat(ctx, Kids(ctx, ids, k - 1, trail, branch), Unfold(ctx, ids[k - 1], childTrail, branch));
      FlattenLast(TreesOf(ctx, ids, k - 1, |trail| + 1, branch), TreeOf(ctx, ids[k - 1], |trail| + 1, branch));
    }
  }

  lemma {:induction false} RootsFlatten(ctx: Context, ids: seq<int>, k: nat)
    requires ClosedContext(ctx) && AllKnown(ctx, ids) && k <= |ids|
    ensures Known(ctx, Roots(ctx, ids, k))
    ensures FlattenAll(TreesOf(ctx, ids, k, 0, {})) == Nodes(ctx, Roots(ctx, ids, k))
    ensures AllNested(TreesOf(ctx, ids, k, 0, {}), 0)
  {
    if k > 0 {
      RootsFlatten(ctx, ids, k - 1);
      TreeFlattens(ctx, ids[k - 1], [], {});
      NodesConcat(ctx, Roots(ctx, ids, k - 1), Unfold(ctx, ids[k - 1], [], {}));
      FlattenLast(TreesOf(ctx, ids, k - 1, 0, {}), TreeOf(ctx, ids[k - 1], 0, {}));
    }
  }

  // --- it expands the project ---------------------------------------------------------------------------

  lemma BareTells(tasks: seq<Task>, edges: seq<Edge>, ctx: Context, id: int, depth: nat)
    requires DistinctIds(tasks) && Tabulates(ctx, tasks, edges) && id in ctx.table
    ensures TellsTask(tasks, edges, Bare(ctx, id, depth))
  {
    assert id in Ids(tasks);
    var t :| t in tasks && t.id == id;
  }

  lemma {:induction false} TreeExpands(tasks: seq<Task>, edges: seq<Edge>, ctx: Context, id: int, depth: nat,
                                       branch: set<int>)
    requires DistinctIds(tasks) && Tabulates(ctx, tasks, edges) && ClosedContext(ctx) && id in ctx.table
    requires ctx.table == TaskTable(tasks)
    ensures Expands(tasks, edges, TreeOf(ctx, id, depth, branch), branch)
    decreases ctx.table.Keys - branch, 0, 0
  {
    if id in branch {
      BareTells(tasks, edges, ctx, id, depth);
      NodeStops(tasks, edges, Bare(ctx, id, depth), branch);
    } else {
      assert id in ctx.table.Keys - branch;
      var ids := ctx.children[id];
      TreesExpand(tasks, edges, ctx, ids, |ids|, depth + 1, branch + {id});
      NodeExpands(tasks, edges, ctx, id, depth, branch, TreesOf(ctx, ids, |ids|, depth + 1, branch + {id}));
    }
  }

  lemma {:induction false} NodeStops(tasks: seq<Task>, edges: seq<Edge>, node: TreeNode, branch: set<int>)
    requires TellsTask(tasks, edges, node) && node.children == [] && node.id in branch
    ensures Expands(tasks, edges, node, branch)
  {
  }

  lemma {:induction false} NodeExpands(tasks: seq<Task>, edges: seq<Edge>, ctx: Context, id: int, depth: nat,
                                       branch: set<int>, kids: seq<TreeNode>)
    requires DistinctIds(tasks) && Tabulates(ctx, tasks, edges)
    requires ctx.table == TaskTable(tasks) && id in ctx.table && id !in branch
    requires |kids| == |ctx.children[id]| && forall i :: 0 <= i < |kids| ==> kids[i].id == ctx.children[id][i]
    requires AllExpand(tasks, edges, kids, branch + {id})
    ensures Expands(tasks, edges, Bare(ctx, id, depth).(children := kids), branch)
  {
    BareTells(tasks, edges, ctx, id, depth);
    assert NodeIds(kids) == ctx.children[id];
  }

  lemma {:induction false} TreesExpand(tasks: seq<Task>, edges: seq<Edge>, ctx: Context, ids: seq<int>, k: nat,
                                       depth: nat, branch: set<int>)
    requires DistinctIds(tasks) && Tabulates(ctx, tasks, edges) && ClosedContext(ctx) && AllKnown(ctx, ids)
             && k <= |ids|
    requires ctx.table == TaskTable(tasks)
    ensures AllExpand(tasks, edges, TreesOf(ctx, ids, k, depth, branch), branch)
    decreases ctx.table.Keys - branch, 1, k
  {
    if k > 0 {
      TreesExpand(tasks, edges, ctx, ids, k - 1, depth, branch);
      TreeExpands(tasks, edges, ctx, ids[k - 1], depth, branch);
    }
  }

  /** The whole expansion of a project. */
  ghost predicate IsExpansion(tasks: seq<Task>, edges: seq<Edge>, full: seq<TreeNode>)
    requires InProject(tasks, edges)
  {
    && NodeIds(full) == RootIds(tasks, ContextOf(tasks, edges).inDegree)
    && AllExpand(tasks, edges, full, {}) && AllNested(full, 0)
  }

  ghost function FullTree(tasks: seq<Task>, edges: seq<Edge>): seq<TreeNode>
    requires InProject(tasks, edges)
  {
    ContextIsSound(tasks, edges);
    var ctx := ContextOf(tasks, edges);
    var rootIds := RootIds(tasks, ctx.inDegree);
    TreesOf(ctx, rootIds, |rootIds|, 0, {})
  }

  lemma FullTreeExpands(tasks: seq<Task>, edges: seq<Edge>)
    requires DistinctIds(tasks) && InProject(tasks, edges)
    ensures IsExpansion(tasks, edges, FullTree(tasks, edges))
  {
    var ctx := ContextOf(tasks, edges);
    ContextIsSound(tasks, edges);
    ContextTabulates(tasks, edges);
    ForestExpands(tasks, edges, ctx, RootIds(tasks, ctx.inDegree));
    RootsFlatten(ctx, RootIds(tasks, ctx.inDegree), |RootIds(tasks, ctx.inDegree)|);
  }

  lemma ForestExpands(tasks: seq<Task>, edges: seq<Edge>, ctx: Context, ids: seq<int>)
    requires DistinctIds(tasks) && Tabulates(ctx, tasks, edges) && ClosedContext(ctx) && AllKnown(ctx, ids)
    requires ctx.table == TaskTable(tasks)
    ensures var trees := TreesOf(ctx, ids, |ids|, 0, {});
            NodeIds(trees) == ids && AllExpand(tasks, edges, trees, {})
  {
    TreesExpand(tasks, edges, ctx, ids, |ids|, 0, {});
  }

  lemma FullTreeFlattens(tasks: seq<Task>, edges: seq<Edge>)
    requires InProject(tasks, edges)
    ensures Known(ContextOf(tasks, edges), AllRows(tasks, edges))
    ensures FlattenAll(FullTree(tasks, edges)) == Nodes(ContextOf(tasks, edges), AllRows(tasks, edges))
  {
    var ctx := ContextOf(tasks, edges);
    ContextIsSound(tasks, edges);
    RootsFlatten(ctx, RootIds(tasks, ctx.inDegree), |RootIds(tasks, ctx.inDegree)|);
  }

  /** Every tree response is the whole expansion of the project, cut after the first 1000 nodes of its preorder; and
      when nothing is cut it is the expansion itself, node for node. */
  lemma TreeIsExpansion(tasks: seq<Task>, deps: seq<Edge>, tree: Response) returns (full: seq<TreeNode>)
    requires DistinctIds(tasks) && Answers(tasks, deps, TreeFormat, tree)
    ensures IsExpansion(tasks, InProjectOnly(tasks, deps), full)
    ensures FlattenAll(tree.roots) == Take(FlattenAll(full), 1000) && AllNested(tree.roots, 0)
    ensures |FlattenAll(full)| <= 1000 ==> tree.roots == full
  {
    var edges := InProjectOnly(tasks, deps);
    full := FullTree(tasks, edges);
    FullTreeExpands(tasks, edges);
    FullTreeFlattens(tasks, edges);
    NodesOfTake(ContextOf(tasks, edges), AllRows(tasks, edges), MAX_TREE_NODES);
    if |FlattenAll(full)| <= MAX_TREE_NODES {
      FlatteningIsUnique(tree.roots, full, 0, [], []);
    }
  }

  lemma NodesOfTake(ctx: Context, rows: seq<Row>, n: nat)
    requires Known(ctx, rows)
    ensures Nodes(ctx, Take(rows, n)) == Take(Nodes(ctx, rows), n)
  {
  }

  // --- it is drawn --------------------------------------------------------------------------------------

  lemma LabelIsTaskLabel(ctx: Context, id: int, depth: nat)
    requires ClosedContext(ctx) && id in ctx.table
    ensures Label(Bare(ctx, id, depth)) == TaskLabel(ctx.table[id])
  {
  }

  lemma {:induction false} KidsAreDrawn(ctx: Context, ids: seq<int>, k: nat, trail: seq<bool>, branch: set<int>)
    requires ClosedContext(ctx) && AllKnown(ctx, ids) && k <= |ids|
    ensures Known(ctx, Kids(ctx, ids, k, trail, branch))
    ensures DrawBelow(TreesOf(ctx, ids, |ids|, |trail| + 1, branch), k, Prefix(trail)) ==
            Lines(ctx, Kids(ctx, ids, k, trail, branch))
    decreases ctx.table.Keys - branch, 1, k
  {
    KidsKnown(ctx, ids, k, trail, branch);
    if k > 0 {
      KidsAreDrawn(ctx, ids, k - 1, trail, branch);
      TreesAt(ctx, ids, |ids|, k - 1, |trail| + 1, branch);
      DrawOneMore(TreesOf(ctx, ids, |ids|, |trail| + 1, branch), k, Prefix(trail));
      TreeIsDrawn(ctx, ids[k - 1], trail, k == |ids|, branch);
      LinesConcat(ctx, Kids(ctx, ids, k - 1, trail, branch), Unfold(ctx, ids[k - 1], trail + [k == |ids|], branch));
    }
  }

  lemma DrawOneMore(siblings: seq<TreeNode>, k: nat, prefix: string)
    requires 0 < k <= |siblings|
    ensures var node, last := siblings[k - 1], k == |siblings|;
            DrawBelow(siblings, k, prefix) ==
            DrawBelow(siblings, k - 1, prefix)
            + ([prefix + Connector(last) + " " + Label(node)]
               + DrawBelow(node.children, |node.children|, prefix + Unit(last)))
  {
  }

  lemma {:induction false} TreesAt(ctx: Context, ids: seq<int>, k: nat, i: nat, depth: nat, branch: set<int>)
    requires ClosedContext(ctx) && AllKnown(ctx, ids) && i < k <= |ids|
    ensures TreesOf(ctx, ids, k, depth, branch)[i] == TreeOf(ctx, ids[i], depth, branch)
    decreases k
  {
    if i < k - 1 { TreesAt(ctx, ids, k - 1, i, depth, branch); }
  }

  /** A node that is not a root, with the lines below it. */
  lemma {:induction false} TreeIsDrawn(ctx: Context, id: int, trail: seq<bool>, last: bool, branch: set<int>)
    requires ClosedContext(ctx) && id in ctx.table
    ensures var node := TreeOf(ctx, id, |trail| + 1, branch);
            && Known(ctx, Unfold(ctx, id, trail + [last], branch))
            && [Prefix(trail) + Connector(last) + " " + Label(node)]
               + DrawBelow(node.children, |node.children|, Prefix(trail) + Unit(last)) ==
               Lines(ctx, Unfold(ctx, id, trail + [last], branch))
    decreases ctx.table.Keys - branch, 0, 0
  {
    var childTrail := trail + [last];
    UnfoldKnown(ctx, id, childTrail, branch);
    LineOfChild(ctx, id, |trail| + 1, trail, last);
    if id in branch {
      assert [Row(id, childTrail, true)][0] == Row(id, childTrail, true);
    } else {
      assert id in ctx.table.Keys - branch;
      var ids := ctx.children[id];
      KidsAreDrawn(ctx, ids, |ids|, childTrail, branch + {id});
      LinesOfFirst(ctx, Row(id, childTrail, false), Kids(ctx, ids, |ids|, childTrail, branch + {id}));
    }
  }

  lemma LineOfChild(ctx: Context, id: int, depth: nat, trail: seq<bool>, last: bool)
    requires ClosedContext(ctx) && id in ctx.table
    ensures Line(ctx.table[id], trail + [last]) == Prefix(trail) + Connector(last) + " " + Label(Bare(ctx, id, depth))
    ensures Prefix(trail + [last]) == Prefix(trail) + Unit(last)
  {
    ChildTrail(trail, last);
    LabelIsTaskLabel(ctx, id, depth);
  }

  lemma LinesOfFirst(ctx: Context, row: Row, rows: seq<Row>)
    requires Known(ctx, [row] + rows) && Known(ctx, rows) && row.id in ctx.table
    ensures Lines(ctx, [row] + rows) == [Line(ctx.table[row.id], row.trail)] + Lines(ctx, rows)
  {
  }

  lemma {:induction false} RootsAreDrawn(ctx: Context, ids: seq<int>, k: nat)
    requires ClosedContext(ctx) && AllKnown(ctx, ids) && k <= |ids|
    ensures Known(ctx, Roots(ctx, ids, k)) && Drawn(TreesOf(ctx, ids, k, 0, {})) == Lines(ctx, Roots(ctx, ids, k))
  {
    RootsKnown(ctx, ids, k);
    if k > 0 {
      var id := ids[k - 1];
      var trees := TreesOf(ctx, ids, k, 0, {});
      RootsAreDrawn(ctx, ids, k - 1);
      assert trees[..k - 1] == TreesOf(ctx, ids, k - 1, 0, {});
      RootIsDrawn(ctx, id);
      RootsKnown(ctx, ids, k - 1);
      LinesConcat(ctx, Roots(ctx, ids, k - 1), Unfold(ctx, id, [], {}));
    }
  }

  lemma RootIsDrawn(ctx: Context, id: int)
    requires ClosedContext(ctx) && id in ctx.table
    ensures var root := TreeOf(ctx, id, 0, {});
            && Known(ctx, Unfold(ctx, id, [], {}))
            && [Label(root)] + DrawBelow(root.children, |root.children|, "") == Lines(ctx, Unfold(ctx, id, [], {}))
  {
    var ids := ctx.children[id];
    KidsAreDrawn(ctx, ids, |ids|, [], {} + {id});
    RootThenBelow(ctx, id, Kids(ctx, ids, |ids|, [], {} + {id}), TreesOf(ctx, ids, |ids|, 1, {} + {id}));
  }

  lemma RootThenBelow(ctx: Context, id: int, rows: seq<Row>, kids: seq<TreeNode>)
    requires ClosedContext(ctx) && id in ctx.table && Known(ctx, rows)
             && DrawBelow(kids, |kids|, "") == Lines(ctx, rows)
    ensures var root := Bare(ctx, id, 0).(children := kids);
            && Known(ctx, [Row(id, [], false)] + rows)
            && [Label(root)] + DrawBelow(root.children, |root.children|, "") == Lines(ctx, [Row(id, [], false)] + rows)
  {
    LabelIsTaskLabel(ctx, id, 0);
    LinesOfFirst(ctx, Row(id, [], false), rows);
  }

  /** Every text response is the drawing of the whole expansion of the project, cut after its first 1000 lines. */
  lemma TextIsDrawnExpansion(tasks: seq<Task>, deps: seq<Edge>, text: Response) returns (full: seq<TreeNode>)
    requires DistinctIds(tasks) && Answers(tasks, deps, TextFormat, text)
    ensures IsExpansion(tasks, InProjectOnly(tasks, deps), full)
    ensures text.lines == Take(Drawn(full), 1000)
  {
    var edges := InProjectOnly(tasks, deps);
    full := FullTree(tasks, edges);
    FullTreeExpands(tasks, edges);
    ContextIsSound(tasks, edges);
    var ctx := ContextOf(tasks, edges);
    var rootIds := RootIds(tasks, ctx.inDegree);
    RootsAreDrawn(ctx, rootIds, |rootIds|);
    LinesOfTake(ctx, AllRows(tasks, edges), MAX_TREE_NODES);
  }

  lemma LinesOfTake(ctx: Context, rows: seq<Row>, n: nat)
    requires Known(ctx, rows)
    ensures Lines(ctx, Take(rows, n)) == Take(Lines(ctx, rows), n)
  {
  }
}

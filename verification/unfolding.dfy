/** The per-branch unfolding of a project graph, without any cap, and the two capped walks of it:
    the nested tree and the box-drawing text. */
module Unfolding {
  import opened ProjectGraph

  const MAX_TREE_NODES: nat := 1000

  /** The tables both walks read. */
  datatype Context = Context(children: map<int, seq<int>>, table: map<int, Task>, inDegree: map<int, int>)

  ghost predicate ClosedContext(ctx: Context) {
    && ctx.children.Keys == ctx.table.Keys
    && ctx.inDegree.Keys == ctx.table.Keys
    && (forall id <- ctx.table :: ctx.table[id].id == id)
    && (forall id <- ctx.children :: AllKnown(ctx, ctx.children[id]))
  }

  predicate AllKnown(ctx: Context, ids: seq<int>) {
    forall id <- ids :: id in ctx.table
  }

  // --- the unbounded specification ------------------------------------------------------------

  /** One row of the unfolding. `trail` says for every level below the root whether the branch taken
      there is the last one; its length is the depth. A `revisit` row is a task already on its branch. */
  datatype Row = Row(id: int, trail: seq<bool>, revisit: bool)

  /** The preorder of everything below `id` on a branch that already passed through `visited`.
      It terminates on cyclic graphs because `visited` grows inside the finite table. */
  ghost function Unfold(ctx: Context, id: int, trail: seq<bool>, visited: set<int>): (rows: seq<Row>)
    requires ClosedContext(ctx) && id in ctx.table
    ensures |rows| >= 1 && rows[0] == Row(id, trail, id in visited)
    decreases ctx.table.Keys - visited, 0, 0
  {
    var row := Row(id, trail, id in visited);
    if id in visited then [row]
    else
      assert id in ctx.table.Keys - visited;
      [row] + Kids(ctx, ctx.children[id], |ctx.children[id]|, trail, visited + {id})
  }

  /** The unfoldings of the first `k` of the siblings `ids`. */
  ghost function Kids(ctx: Context, ids: seq<int>, k: nat, trail: seq<bool>, visited: set<int>): seq<Row>
    requires ClosedContext(ctx) && AllKnown(ctx, ids) && k <= |ids|
    decreases ctx.table.Keys - visited, 1, k
  {
    if k == 0 then []
    else Kids(ctx, ids, k - 1, trail, visited) + Unfold(ctx, ids[k - 1], trail + [k == |ids|], visited)
  }

  /** The unfoldings of the first `k` roots, each on a branch of its own. */
  ghost function Roots(ctx: Context, ids: seq<int>, k: nat): seq<Row>
    requires ClosedContext(ctx) && AllKnown(ctx, ids) && k <= |ids|
  {
    if k == 0 then [] else Roots(ctx, ids, k - 1) + Unfold(ctx, ids[k - 1], [], {})
  }

  ghost function Forest(ctx: Context, rootIds: seq<int>): seq<Row>
    requires ClosedContext(ctx) && AllKnown(ctx, rootIds)
  {
    Roots(ctx, rootIds, |rootIds|)
  }

  function Take<T>(s: seq<T>, n: nat): seq<T> {
    if |s| <= n then s else s[..n]
  }

  lemma TakeConcat<T>(a: seq<T>, b: seq<T>, n: nat)
    ensures |Take(a, n)| == if |a| <= n then |a| else n
    ensures |Take(a + b, n)| == if |a| + |b| <= n then |a| + |b| else n
    ensures Take(a + b, n) == Take(a, n) + Take(b, n - |Take(a, n)|)
  {
    if |a| + |b| > n && |a| <= n {
      assert (a + b)[..n] == a + b[..n - |a|];
    }
  }

  lemma {:induction false} KidsGrow(ctx: Context, ids: seq<int>, i: nat, k: nat, trail: seq<bool>, visited: set<int>)
    requires ClosedContext(ctx) && AllKnown(ctx, ids) && i <= k <= |ids|
    ensures Kids(ctx, ids, i, trail, visited) <= Kids(ctx, ids, k, trail, visited)
    ensures |Kids(ctx, ids, i, trail, visited)| + (k - i) <= |Kids(ctx, ids, k, trail, visited)|
    decreases k
  {
    if i < k {
      KidsGrow(ctx, ids, i, k - 1, trail, visited);
    }
  }

  lemma {:induction false} RootsGrow(ctx: Context, ids: seq<int>, i: nat, k: nat)
    requires ClosedContext(ctx) && AllKnown(ctx, ids) && i <= k <= |ids|
    ensures Roots(ctx, ids, i) <= Roots(ctx, ids, k)
    ensures |Roots(ctx, ids, i)| + (k - i) <= |Roots(ctx, ids, k)|
    decreases k
  {
    if i < k {
      RootsGrow(ctx, ids, i, k - 1);
    }
  }

  // --- format=tree ------------------------------------------------------------------------------

  datatype TreeNode = TreeNode(id: int, title: string, status: Status, priority: Priority,
                               depth: nat, blockedByCount: int, children: seq<TreeNode>)

  /** The emitted node of a row, children aside. */
  function Bare(ctx: Context, id: int, depth: nat): TreeNode
    requires id in ctx.table && id in ctx.inDegree
  {
    var t := ctx.table[id];
    TreeNode(id, t.title, t.status, t.priority, depth, ctx.inDegree[id], [])
  }

  ghost predicate Known(ctx: Context, rows: seq<Row>) {
    forall i :: 0 <= i < |rows| ==> rows[i].id in ctx.table && rows[i].id in ctx.inDegree
  }

  ghost function Nodes(ctx: Context, rows: seq<Row>): seq<TreeNode>
    requires Known(ctx, rows)
  {
    seq(|rows|, i requires 0 <= i < |rows| => Bare(ctx, rows[i].id, |rows[i].trail|))
  }

  function Flatten(node: TreeNode): seq<TreeNode>
    decreases node, 0
  {
    [node.(children := [])] + FlattenAll(node.children)
  }

  function FlattenAll(nodes: seq<TreeNode>): seq<TreeNode>
    decreases nodes, 1
  {
    if nodes == [] then [] else FlattenAll(nodes[..|nodes| - 1]) + Flatten(nodes[|nodes| - 1])
  }

  ghost predicate Nested(node: TreeNode, depth: nat)
    decreases node, 0
  {
    node.depth == depth && AllNested(node.children, depth + 1)
  }

  ghost predicate AllNested(nodes: seq<TreeNode>, depth: nat)
    decreases nodes, 1
  {
    forall i :: 0 <= i < |nodes| ==> Nested(nodes[i], depth)
  }

  /** `nodes` is the forest whose preorder is the first `budget` of `rows`. */
  ghost predicate CappedTree(ctx: Context, nodes: seq<TreeNode>, rows: seq<Row>, budget: nat, depth: nat) {
    && Known(ctx, rows)
    && FlattenAll(nodes) == Nodes(ctx, Take(rows, budget))
    && AllNested(nodes, depth)
  }

  /** When the tree walk raises its flag: something was left out, or the cap fell exactly on the last
      row and that row was not a revisit (the cap test comes before the children are looked at). */
  ghost predicate TreeCut(rows: seq<Row>, budget: nat) {
    |rows| > budget || (|rows| == budget && |rows| > 0 && !rows[|rows| - 1].revisit)
  }

  class TreeCounter {
    var count: nat
    var truncated: bool

    constructor ()
      ensures count == 0 && !truncated
    {
      count, truncated := 0, false;
    }
  }

  lemma {:induction false} UnfoldKnown(ctx: Context, id: int, trail: seq<bool>, visited: set<int>)
    requires ClosedContext(ctx) && id in ctx.table
    ensures Known(ctx, Unfold(ctx, id, trail, visited))
    decreases ctx.table.Keys - visited, 0, 0
  {
    if id !in visited {
      assert id in ctx.table.Keys - visited;
      KidsKnown(ctx, ctx.children[id], |ctx.children[id]|, trail, visited + {id});
    }
  }

  lemma {:induction false} KidsKnown(ctx: Context, ids: seq<int>, k: nat, trail: seq<bool>, visited: set<int>)
    requires ClosedContext(ctx) && AllKnown(ctx, ids) && k <= |ids|
    ensures Known(ctx, Kids(ctx, ids, k, trail, visited))
    decreases ctx.table.Keys - visited, 1, k
  {
    if k > 0 {
      KidsKnown(ctx, ids, k - 1, trail, visited);
      UnfoldKnown(ctx, ids[k - 1], trail + [k == |ids|], visited);
    }
  }

  /** Appending a capped subtree to a capped forest that is still under its cap. */
  lemma AppendSubtree(ctx: Context, nodes: seq<TreeNode>, rows: seq<Row>, node: TreeNode, more: seq<Row>,
                      budget: nat, depth: nat)
    requires CappedTree(ctx, nodes, rows, budget, depth) && |rows| < budget
    requires Known(ctx, more) && |more| >= 1
    requires Flatten(node) == Nodes(ctx, Take(more, budget - |rows|)) && Nested(node, depth)
    ensures CappedTree(ctx, nodes + [node], rows + more, budget, depth)
    ensures |Take(rows + more, budget)| == |rows| + |Take(more, budget - |rows|)|
    ensures TreeCut(rows + more, budget) <==> TreeCut(more, budget - |rows|)
  {
    assert (nodes + [node])[..|nodes|] == nodes;
    assert Take(rows + more, budget) == rows + Take(more, budget - |rows|);
    assert Nodes(ctx, Take(rows + more, budget)) == Nodes(ctx, rows) + Nodes(ctx, Take(more, budget - |rows|));
  }

  /** At the cap the remaining rows change the forest no more, only the flag. */
  lemma TreeCutShort(ctx: Context, nodes: seq<TreeNode>, rows: seq<Row>, all: seq<Row>, budget: nat, depth: nat)
    requires CappedTree(ctx, nodes, rows, budget, depth) && |Take(rows, budget)| == budget
    requires rows <= all && |rows| < |all| && Known(ctx, all)
    ensures CappedTree(ctx, nodes, all, budget, depth) && TreeCut(all, budget)
    ensures |Take(all, budget)| == budget
  {
    assert Take(rows, budget) == Take(all, budget);
  }

  /** The capped tree walk. `trail` is ghost: the tree format keeps only the depth. */
  method BuildTreeNode(id: int, depth: nat, visited: set<int>, ctx: Context, counter: TreeCounter,
                       ghost trail: seq<bool>)
    returns (node: TreeNode)
    requires ClosedContext(ctx) && id in ctx.table && depth == |trail|
    requires counter.count < MAX_TREE_NODES
    modifies counter
    ensures Known(ctx, Unfold(ctx, id, trail, visited))
    ensures Flatten(node) == Nodes(ctx, Take(Unfold(ctx, id, trail, visited), MAX_TREE_NODES - old(counter.count)))
    ensures Nested(node, depth)
    ensures counter.count == old(counter.count) +
            |Take(Unfold(ctx, id, trail, visited), MAX_TREE_NODES - old(counter.count))|
    ensures counter.truncated <==>
            old(counter.truncated) || TreeCut(Unfold(ctx, id, trail, visited), MAX_TREE_NODES - old(counter.count))
    decreases ctx.table.Keys - visited, 0
  {
    ghost var budget: nat := MAX_TREE_NODES - counter.count;
    ghost var all := Unfold(ctx, id, trail, visited);
    UnfoldKnown(ctx, id, trail, visited);
    counter.count := counter.count + 1;
    if id in visited {
      node := Bare(ctx, id, depth);
      assert Flatten(node) == [node];
      return;
    }
    if counter.count >= MAX_TREE_NODES {
      counter.truncated := true;
      node := Bare(ctx, id, depth);
      assert Flatten(node) == [node];
      assert Take(all, 1) == [all[0]];
      return;
    }
    var nextVisited := visited + {id};
    assert id in ctx.table.Keys - visited;
    var childIds := ctx.children[id];
    ghost var rows := Kids(ctx, childIds, |childIds|, trail, nextVisited);
    KidsKnown(ctx, childIds, |childIds|, trail, nextVisited);
    var children := BuildSiblings(childIds, depth + 1, nextVisited, ctx, counter, trail);
    node := Bare(ctx, id, depth).(children := children);
    assert Take(all, budget) == [all[0]] + Take(rows, budget - 1);
    assert Nodes(ctx, Take(all, budget)) == [Bare(ctx, id, depth)] + Nodes(ctx, Take(rows, budget - 1));
  }

  /** The sibling loop of the tree walk. */
  method BuildSiblings(childIds: seq<int>, depth: nat, nextVisited: set<int>, ctx: Context, counter: TreeCounter,
                       ghost trail: seq<bool>)
    returns (children: seq<TreeNode>)
    requires ClosedContext(ctx) && AllKnown(ctx, childIds) && depth == |trail| + 1
    requires counter.count < MAX_TREE_NODES
    modifies counter
    ensures CappedTree(ctx, children, Kids(ctx, childIds, |childIds|, trail, nextVisited),
                       MAX_TREE_NODES - old(counter.count), depth)
    ensures counter.count == old(counter.count) +
                             |Take(Kids(ctx, childIds, |childIds|, trail, nextVisited),
                                   MAX_TREE_NODES - old(counter.count))|
    ensures counter.truncated <==> old(counter.truncated) ||
                                   TreeCut(Kids(ctx, childIds, |childIds|, trail, nextVisited),
                                           MAX_TREE_NODES - old(counter.count))
    decreases ctx.table.Keys - nextVisited, 1
  {
    ghost var budget: nat := MAX_TREE_NODES - counter.count;
    KidsKnown(ctx, childIds, |childIds|, trail, nextVisited);
    children := [];
    for i := 0 to |childIds|
      invariant CappedTree(ctx, children, Kids(ctx, childIds, i, trail, nextVisited), budget, depth)
      invariant counter.count == old(counter.count) + |Take(Kids(ctx, childIds, i, trail, nextVisited), budget)|
      invariant counter.truncated <==>
                old(counter.truncated) || TreeCut(Kids(ctx, childIds, i, trail, nextVisited), budget)
    {
      ghost var rows := Kids(ctx, childIds, i, trail, nextVisited);
      if counter.count >= MAX_TREE_NODES {
        counter.truncated := true;
        KidsGrow(ctx, childIds, i, |childIds|, trail, nextVisited);
        TreeCutShort(ctx, children, rows, Kids(ctx, childIds, |childIds|, trail, nextVisited), budget, depth);
        return;
      }
      ghost var childTrail := trail + [i + 1 == |childIds|];
      var child := BuildTreeNode(childIds[i], depth, nextVisited, ctx, counter, childTrail);
      AppendSubtree(ctx, children, rows, child, Unfold(ctx, childIds[i], childTrail, nextVisited), budget, depth);
      children := children + [child];
    }
  }

  /** The root loop of `format=tree`. */
  method BuildForest(rootIds: seq<int>, ctx: Context, counter: TreeCounter) returns (roots: seq<TreeNode>)
    requires ClosedContext(ctx) && AllKnown(ctx, rootIds)
    requires counter.count == 0 && !counter.truncated
    modifies counter
    ensures CappedTree(ctx, roots, Forest(ctx, rootIds), MAX_TREE_NODES, 0)
    ensures counter.truncated <==> TreeCut(Forest(ctx, rootIds), MAX_TREE_NODES)
  {
    roots := [];
    RootsKnown(ctx, rootIds, |rootIds|);
    for i := 0 to |rootIds|
      invariant CappedTree(ctx, roots, Roots(ctx, rootIds, i), MAX_TREE_NODES, 0)
      invariant counter.count == |Take(Roots(ctx, rootIds, i), MAX_TREE_NODES)|
      invariant counter.truncated <==> TreeCut(Roots(ctx, rootIds, i), MAX_TREE_NODES)
    {
      ghost var rows := Roots(ctx, rootIds, i);
      if counter.count >= MAX_TREE_NODES {
        counter.truncated := true;
        RootsGrow(ctx, rootIds, i, |rootIds|);
        TreeCutShort(ctx, roots, rows, Forest(ctx, rootIds), MAX_TREE_NODES, 0);
        return;
      }
      var root := BuildTreeNode(rootIds[i], 0, {}, ctx, counter, []);
      AppendSubtree(ctx, roots, rows, root, Unfold(ctx, rootIds[i], [], {}), MAX_TREE_NODES, 0);
      roots := roots + [root];
    }
  }

  lemma {:induction false} RootsKnown(ctx: Context, ids: seq<int>, k: nat)
    requires ClosedContext(ctx) && AllKnown(ctx, ids) && k <= |ids|
    ensures Known(ctx, Roots(ctx, ids, k))
  {
    if k > 0 {
      RootsKnown(ctx, ids, k - 1);
      UnfoldKnown(ctx, ids[k - 1], [], {});
    }
  }
}

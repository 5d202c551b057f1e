/** The two formats say the same thing: folding the printed lines by their depth rebuilds the tree. */
module Outlines {
  import opened Sequences
  import opened ProjectGraph
  import opened Unfolding
  import opened TextLines

  /** Ids and nesting, nothing else. */
  datatype Outline = Outline(id: int, kids: seq<Outline>)

  function Shape(node: TreeNode): Outline
    decreases node, 0
  {
    Outline(node.id, Shapes(node.children))
  }

  function Shapes(nodes: seq<TreeNode>): seq<Outline>
    decreases nodes, 1
  {
    seq(|nodes|, i requires 0 <= i < |nodes| => Shape(nodes[i]))
  }

  /** Reads a forest of the given depth off the front of `items`: an item opens a node, the deeper items
      after it are its descendants. Returns what is left over. */
  function Fold(items: seq<Item>, depth: nat): (r: (seq<Outline>, seq<Item>))
    ensures |r.1| <= |items|
    decreases |items|
  {
    if items == [] || items[0].depth != depth then ([], items)
    else
      var (kids, afterKids) := Fold(items[1..], depth + 1);
      var (siblings, rest) := Fold(afterKids, depth);
      ([Outline(items[0].id, kids)] + siblings, rest)
  }

  function ReadLines(lines: seq<string>): seq<Item> {
    seq(|lines|, i requires 0 <= i < |lines| => ReadLine(lines[i]))
  }

  function ItemsOf(nodes: seq<TreeNode>): seq<Item> {
    seq(|nodes|, i requires 0 <= i < |nodes| => Item(nodes[i].depth, nodes[i].id))
  }

  lemma ItemsConcat(a: seq<TreeNode>, b: seq<TreeNode>)
    ensures ItemsOf(a + b) == ItemsOf(a) + ItemsOf(b)
  {
  }

  lemma FlattenLast(nodes: seq<TreeNode>, last: TreeNode)
    ensures FlattenAll(nodes + [last]) == FlattenAll(nodes) + Flatten(last)
  {
    assert (nodes + [last])[..|nodes|] == nodes;
  }

  lemma {:induction false} FlattenCons(first: TreeNode, rest: seq<TreeNode>)
    ensures FlattenAll([first] + rest) == Flatten(first) + FlattenAll(rest)
    decreases |rest|
  {
    if rest == [] {
      FlattenLast([], first);
      assert [first] + rest == [] + [first];
    } else {
      var init, last := rest[..|rest| - 1], rest[|rest| - 1];
      FlattenCons(first, init);
      FlattenLast(init, last);
      FlattenLast([first] + init, last);
      assert rest == init + [last] && [first] + rest == [first] + init + [last];
      Associate(Flatten(first), FlattenAll(init), Flatten(last));
    }
  }

  lemma FlattenFirst(nodes: seq<TreeNode>)
    requires nodes != []
    ensures FlattenAll(nodes) == Flatten(nodes[0]) + FlattenAll(nodes[1..])
  {
    FlattenCons(nodes[0], nodes[1..]);
    assert nodes == [nodes[0]] + nodes[1..];
  }

  /** The preorder items of a forest, read off its structure. */
  function Listing(nodes: seq<TreeNode>): seq<Item>
    decreases nodes
  {
    if nodes == [] then []
    else [Item(nodes[0].depth, nodes[0].id)] + Listing(nodes[0].children) + Listing(nodes[1..])
  }

  lemma {:induction false} FlatItems(nodes: seq<TreeNode>)
    ensures ItemsOf(FlattenAll(nodes)) == Listing(nodes)
    decreases nodes
  {
    if nodes != [] {
      var first := nodes[0];
      FlattenFirst(nodes);
      FlatItems(first.children);
      FlatItems(nodes[1..]);
      ItemsConcat(Flatten(first), FlattenAll(nodes[1..]));
      ItemsConcat([first.(children := [])], FlattenAll(first.children));
    }
  }

  lemma ShapesFirst(nodes: seq<TreeNode>)
    requires nodes != []
    ensures Shapes(nodes) == [Outline(nodes[0].id, Shapes(nodes[0].children))] + Shapes(nodes[1..])
  {
  }

  /** Folding an item, its descendants and its later siblings. */
  lemma FoldNode(item: Item, below: seq<Item>, after: seq<Item>, kids: seq<Outline>, siblings: seq<Outline>,
                 rest: seq<Item>)
    requires Fold(below + after, item.depth + 1) == (kids, after)
    requires Fold(after, item.depth) == (siblings, rest)
    ensures Fold([item] + below + after, item.depth) == ([Outline(item.id, kids)] + siblings, rest)
  {
    assert ([item] + below + after)[1..] == below + after;
  }

  /** What may follow a forest of depth `depth`: nothing, or something shallower. */
  predicate Shallower(rest: seq<Item>, depth: nat) {
    rest != [] ==> rest[0].depth < depth
  }

  lemma NestedParts(nodes: seq<TreeNode>, depth: nat, rest: seq<Item>)
    requires nodes != [] && AllNested(nodes, depth) && Shallower(rest, depth)
    ensures Nested(nodes[0], depth) && AllNested(nodes[1..], depth)
    ensures Shallower(Listing(nodes[1..]) + rest, depth + 1)
  {
    assert Nested(nodes[0], depth);
    if nodes[1..] != [] { assert Nested(nodes[1], depth); }
  }

  lemma {:induction false} FoldUndoesListing(nodes: seq<TreeNode>, depth: nat, rest: seq<Item>)
    requires AllNested(nodes, depth) && Shallower(rest, depth)
    ensures Fold(Listing(nodes) + rest, depth) == (Shapes(nodes), rest)
    decreases nodes
  {
    if nodes == [] {
      assert Listing(nodes) + rest == rest && Shapes(nodes) == [];
    } else {
      var first, others := nodes[0], nodes[1..];
      var after := Listing(others) + rest;
      NestedParts(nodes, depth, rest);
      FoldUndoesListing(first.children, depth + 1, after);
      FoldUndoesListing(others, depth, rest);
      FoldNode(Item(depth, first.id), Listing(first.children), after, Shapes(first.children), Shapes(others), rest);
      Associate([Item(depth, first.id)] + Listing(first.children), Listing(others), rest);
      ShapesFirst(nodes);
    }
  }

  /** For every project, cyclic and truncated ones included: the text lines and the tree are one
      forest. Reading depth and id off every line and folding by depth gives exactly the ids and the
      nesting of the tree. */
  lemma TextFoldsToTree(ctx: Context, rows: seq<Row>, roots: seq<TreeNode>, lines: seq<string>)
    requires ClosedContext(ctx)
    requires CappedTree(ctx, roots, rows, MAX_TREE_NODES, 0)
    requires lines == Lines(ctx, Take(rows, MAX_TREE_NODES))
    ensures Fold(ReadLines(lines), 0) == (Shapes(roots), [])
    ensures |lines| == |FlattenAll(roots)|
    ensures forall i :: 0 <= i < |lines| ==> ReadLine(lines[i]).id == FlattenAll(roots)[i].id
  {
    var capped := Take(rows, MAX_TREE_NODES);
    var flat := FlattenAll(roots);
    forall i | 0 <= i < |lines|
      ensures ReadLine(lines[i]) == Item(flat[i].depth, flat[i].id)
    {
      LineReadsBack(ctx.table[capped[i].id], capped[i].trail);
    }
    assert ReadLines(lines) == ItemsOf(flat) + [];
    FlatItems(roots);
    FoldUndoesListing(roots, 0, []);
  }
}

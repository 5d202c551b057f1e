/** The rows a project's dependency graph is built from, and the two per-task tables
    (children and in-degree) that every walk and the classifier read. */
module ProjectGraph {
  import opened Sorting

  datatype Priority = Low | Medium | High | Urgent
  datatype Status = Open | InProgress | Done | Closed | Blocked | Backlogged

  /** `createdAt` stands for the stored timestamp text, which is only ever compared. */
  datatype Task = Task(id: nat, title: string, status: Status, priority: Priority, createdAt: int)

  /** `src` blocks `dst`. */
  datatype Edge = Edge(src: int, dst: int)

  predicate DistinctIds(tasks: seq<Task>) {
    forall i, j :: 0 <= i < j < |tasks| ==> tasks[i].id != tasks[j].id
  }

  function Ids(tasks: seq<Task>): set<int> {
    set t <- tasks :: t.id
  }

  predicate InProject(tasks: seq<Task>, edges: seq<Edge>) {
    forall e <- edges :: e.src in Ids(tasks) && e.dst in Ids(tasks)
  }

  function InProjectOnly(tasks: seq<Task>, deps: seq<Edge>): (edges: seq<Edge>)
    ensures InProject(tasks, edges)
  {
    if deps == [] then []
    else
      var e := deps[|deps| - 1];
      var rest := InProjectOnly(tasks, deps[..|deps| - 1]);
      if e.src in Ids(tasks) && e.dst in Ids(tasks) then rest + [e] else rest
  }

  /** The tasks blocked by `id`, in edge order, duplicates kept. */
  function Targets(edges: seq<Edge>, id: int): seq<int> {
    if edges == [] then []
    else
      var rest := Targets(edges[..|edges| - 1], id);
      if edges[|edges| - 1].src == id then rest + [edges[|edges| - 1].dst] else rest
  }

  /** The number of edges into `id` whose source is outside `drained`. */
  function Pending(edges: seq<Edge>, id: int, drained: set<int>): nat {
    if edges == [] then 0
    else
      var e := edges[|edges| - 1];
      Pending(edges[..|edges| - 1], id, drained) + (if e.dst == id && e.src !in drained then 1 else 0)
  }

  function InDegree(edges: seq<Edge>, id: int): nat { Pending(edges, id, {}) }

  lemma {:induction false} PendingWitness(edges: seq<Edge>, id: int, drained: set<int>)
    ensures Pending(edges, id, drained) > 0 <==> exists e :: e in edges && e.dst == id && e.src !in drained
  {
    if edges != [] {
      var last := edges[|edges| - 1];
      PendingWitness(edges[..|edges| - 1], id, drained);
      assert edges == edges[..|edges| - 1] + [last];
    }
  }

  lemma {:induction false} TargetsComplete(edges: seq<Edge>, id: int, c: int)
    ensures c in Targets(edges, id) <==> Edge(id, c) in edges
  {
    if edges != [] {
      TargetsComplete(edges[..|edges| - 1], id, c);
      assert edges == edges[..|edges| - 1] + [edges[|edges| - 1]];
    }
  }

  lemma {:induction false} TargetCount(edges: seq<Edge>, id: int, c: int)
    ensures multiset(Targets(edges, id))[c] == multiset(edges)[Edge(id, c)]
  {
    if edges != [] {
      var init, last := edges[..|edges| - 1], edges[|edges| - 1];
      assert edges == init + [last];
      TargetCount(init, id, c);
    }
  }

  /** The number of edges into `id`, counted by their positions. */
  function EdgesInto(edges: seq<Edge>, id: int): set<int> {
    set i | 0 <= i < |edges| && edges[i].dst == id
  }

  lemma {:induction false} InDegreeCounts(edges: seq<Edge>, id: int)
    ensures InDegree(edges, id) == |EdgesInto(edges, id)|
  {
    if edges != [] {
      var n := |edges| - 1;
      InDegreeCounts(edges[..n], id);
      assert EdgesInto(edges, id) == EdgesInto(edges[..n], id) + if edges[n].dst == id then {n} else {};
    }
  }

  function Count(s: seq<int>, x: int): nat {
    if s == [] then 0 else Count(s[..|s| - 1], x) + (if s[|s| - 1] == x then 1 else 0)
  }

  lemma {:induction false} CountPrefix(s: seq<int>, k: nat, x: int)
    requires k < |s|
    ensures Count(s[..k], x) + (if s[k] == x then 1 else 0) <= Count(s, x)
  {
    if k < |s| - 1 {
      CountPrefix(s[..|s| - 1], k, x);
      assert s[..|s| - 1][..k] == s[..k];
    }
  }

  /** Draining `id` takes exactly its edges out of every pending count. */
  lemma {:induction false} DrainOne(edges: seq<Edge>, id: int, n: int, drained: set<int>)
    requires id !in drained
    ensures Pending(edges, n, drained) == Pending(edges, n, drained + {id}) + Count(Targets(edges, id), n)
  {
    if edges != [] {
      var rest, last := Targets(edges[..|edges| - 1], id), edges[|edges| - 1];
      DrainOne(edges[..|edges| - 1], id, n, drained);
      assert (rest + [last.dst])[..|rest|] == rest;
    }
  }

  // --- the comparator of siblings and roots -------------------------------------------------

  function Weight(p: Priority): nat {
    match p
    case Urgent => 4
    case High => 3
    case Medium => 2
    case Low => 1
  }

  function TaskTable(tasks: seq<Task>): (table: map<int, Task>)
    ensures table.Keys == Ids(tasks)
    ensures forall id <- table :: table[id].id == id
  {
    if tasks == [] then map[]
    else
      var last := tasks[|tasks| - 1];
      assert tasks == tasks[..|tasks| - 1] + [last];
      TaskTable(tasks[..|tasks| - 1])[last.id := last]
  }

  /** `a` is listed no later than `b`: priority descending, then newest first, then lowest id. */
  predicate Before(table: map<int, Task>, a: int, b: int) {
    if a !in table || b !in table then a <= b
    else
      var wa, wb := Weight(table[a].priority), Weight(table[b].priority);
      if wa != wb then wa > wb
      else if table[a].createdAt != table[b].createdAt then table[a].createdAt > table[b].createdAt
      else a <= b
  }

  function ListingOrder(table: map<int, Task>): (int, int) -> bool {
    (a, b) => Before(table, a, b)
  }

  lemma {:induction false} TableHolds(tasks: seq<Task>, t: Task)
    requires DistinctIds(tasks) && t in tasks
    ensures TaskTable(tasks)[t.id] == t
  {
    var init, last := tasks[..|tasks| - 1], tasks[|tasks| - 1];
    if t != last {
      assert t in init;
      TableHolds(init, t);
    }
  }

  // --- what the listing order is, spelled out --------------------------------------------------

  /** `a` belongs ahead of `b`: it is more urgent, or as urgent and newer, or as urgent and as old with a lower id. */
  predicate Ahead(a: Task, b: Task) {
    || (a.priority.Urgent? && !b.priority.Urgent?)
    || (a.priority.High? && (b.priority.Medium? || b.priority.Low?))
    || (a.priority.Medium? && b.priority.Low?)
    || (a.priority == b.priority && a.createdAt > b.createdAt)
    || (a.priority == b.priority && a.createdAt == b.createdAt && a.id < b.id)
  }

  lemma BeforeIsNotAhead(table: map<int, Task>, a: int, b: int)
    requires a in table && b in table && table[a].id == a && table[b].id == b
    ensures Before(table, a, b) <==> !Ahead(table[b], table[a])
  {
  }

  /** The comparator is a total order, and puts one task no later than another exactly when the other does not belong
      ahead of it. */
  lemma ListingOrderIsTotal(table: map<int, Task>)
    ensures TotalOn(ListingOrder(table), table.Keys)
    ensures forall a, b :: a in table && b in table && table[a].id == a && table[b].id == b ==>
              (ListingOrder(table)(a, b) <==> !Ahead(table[b], table[a]))
  {
    forall a, b | a in table && b in table && table[a].id == a && table[b].id == b
      ensures Before(table, a, b) <==> !Ahead(table[b], table[a])
    {
      BeforeIsNotAhead(table, a, b);
    }
  }

  /** Nothing in the list belongs ahead of what is listed before it. */
  predicate WellListed(table: map<int, Task>, ids: seq<int>) {
    && (forall i :: 0 <= i < |ids| ==> ids[i] in table)
    && forall i, j :: 0 <= i < j < |ids| ==> !Ahead(table[ids[j]], table[ids[i]])
  }

  lemma SortIsWellListed(table: map<int, Task>, ids: seq<int>)
    requires (forall id <- ids :: id in table) && forall id <- table :: table[id].id == id
    ensures WellListed(table, Sort(ListingOrder(table), ids))
  {
    ListingOrderIsTotal(table);
    assert Within(ids, table.Keys);
    SortIsOrdered(ListingOrder(table), ids, table.Keys);
    var sorted := Sort(ListingOrder(table), ids);
    SameElements(sorted, ids);
    forall i | 0 <= i < |sorted| ensures sorted[i] in table {
      assert sorted[i] in ids;
    }
    OrderedIsWellListed(table, sorted);
  }

  lemma OrderedIsWellListed(table: map<int, Task>, sorted: seq<int>)
    requires Ordered(ListingOrder(table), sorted) && forall id <- table :: table[id].id == id
    requires forall i :: 0 <= i < |sorted| ==> sorted[i] in table
    ensures WellListed(table, sorted)
  {
    forall i, j | 0 <= i < j < |sorted| ensures !Ahead(table[sorted[j]], table[sorted[i]]) {
      assert ListingOrder(table)(sorted[i], sorted[j]);
      BeforeIsNotAhead(table, sorted[i], sorted[j]);
    }
  }
}

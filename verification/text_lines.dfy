/** `format=text`: the capped box-drawing walk, and a reader that recovers depth and id from a line. */
module TextLines {
  import opened Sequences
  import opened ProjectGraph
  import opened Unfolding

  const TRUNK: string := "\U{2502}   "
  const BLANK: string := "    "
  const TEE: string := "\U{251C}\U{2500}\U{2500}"
  const ELBOW: string := "\U{2514}\U{2500}\U{2500}"

  // --- one line -------------------------------------------------------------------------------

  function Digit(d: nat): char
    requires d < 10
  {
    "0123456789"[d]
  }

  function Decimal(n: nat): (s: string)
    ensures |s| > 0
  {
    if n < 10 then [Digit(n)] else Decimal(n / 10) + [Digit(n % 10)]
  }

  function Glyph(s: Status): char {
    match s
    case Open => '\U{25CB}'
    case InProgress => '\U{25D0}'
    case Done => '\U{2713}'
    case Closed => '\U{2713}'
    case Blocked => '\U{2717}'
    case Backlogged => '\U{25CB}'
  }

  function PriorityName(p: Priority): string {
    match p
    case Low => "low"
    case Medium => "medium"
    case High => "high"
    case Urgent => "urgent"
  }

  function TaskLabel(t: Task): string {
    "#" + Decimal(t.id) + " " + [Glyph(t.status)] + " " + t.title + " (" + PriorityName(t.priority) + ")"
  }

  function Unit(isLast: bool): string { if isLast then BLANK else TRUNK }

  function Connector(isLast: bool): string { if isLast then ELBOW else TEE }

  /** The trunk drawn in front of the children of the node at the end of `trail`. */
  function Prefix(trail: seq<bool>): string {
    if trail == [] then "" else Prefix(trail[..|trail| - 1]) + Unit(trail[|trail| - 1])
  }

  /** The printed line of a row. */
  function Line(t: Task, trail: seq<bool>): string {
    if trail == [] then TaskLabel(t)
    else Prefix(trail[..|trail| - 1]) + Connector(trail[|trail| - 1]) + " " + TaskLabel(t)
  }

  ghost function Lines(ctx: Context, rows: seq<Row>): seq<string>
    requires Known(ctx, rows)
  {
    seq(|rows|, i requires 0 <= i < |rows| => Line(ctx.table[rows[i].id], rows[i].trail))
  }

  // --- the walk -------------------------------------------------------------------------------

  /** What the walk has produced so far: the lines, their number and the flag. */
  datatype Page = Page(out: seq<string>, count: nat, truncated: bool)

  /** One more row, if the cap allows it; otherwise only the flag is raised. */
  ghost function AddRow(ctx: Context, row: Row, p: Page): Page
    requires row.id in ctx.table
  {
    if p.count >= MAX_TREE_NODES then p.(truncated := true)
    else Page(p.out + [Line(ctx.table[row.id], row.trail)], p.count + 1, p.truncated)
  }

  ghost function PageAfter(ctx: Context, rows: seq<Row>, p: Page): Page
    requires Known(ctx, rows)
  {
    if rows == [] then p else AddRow(ctx, rows[|rows| - 1], PageAfter(ctx, rows[..|rows| - 1], p))
  }

  /** From `before` to `after` the walk printed `rows`, as many of them as the cap allowed. */
  ghost predicate Printed(ctx: Context, rows: seq<Row>, before: Page, after: Page) {
    Known(ctx, rows) && after == PageAfter(ctx, rows, before)
  }

  /** What it comes to on an empty page: the lines of the first rows, and the flag exactly if some did not fit. */
  lemma {:induction false} PageOfRows(ctx: Context, rows: seq<Row>)
    requires Known(ctx, rows)
    ensures PageAfter(ctx, rows, Page([], 0, false)) ==
            Page(Lines(ctx, Take(rows, MAX_TREE_NODES)), |Take(rows, MAX_TREE_NODES)|, |rows| > MAX_TREE_NODES)
  {
    if rows != [] {
      var init, last := rows[..|rows| - 1], rows[|rows| - 1];
      PageOfRows(ctx, init);
      if |init| < MAX_TREE_NODES {
        assert rows == init + [last];
        LinesConcat(ctx, init, [last]);
      } else {
        assert Take(rows, MAX_TREE_NODES) == Take(init, MAX_TREE_NODES);
      }
    }
  }

  lemma LinesConcat(ctx: Context, a: seq<Row>, b: seq<Row>)
    requires Known(ctx, a) && Known(ctx, b)
    ensures Known(ctx, a + b) && Lines(ctx, a + b) == Lines(ctx, a) + Lines(ctx, b)
  {
  }

  lemma {:induction false} PrintedThenPrinted(ctx: Context, rows: seq<Row>, more: seq<Row>, p: Page, q: Page, r: Page)
    requires Printed(ctx, rows, p, q) && Printed(ctx, more, q, r)
    ensures Printed(ctx, rows + more, p, r)
    decreases |more|
  {
    if more == [] {
      assert rows + more == rows;
    } else {
      var init := more[..|more| - 1];
      PrintedThenPrinted(ctx, rows, init, p, q, PageAfter(ctx, init, q));
      assert (rows + more)[..|rows + more| - 1] == rows + init;
    }
  }

  /** On a full page the rest of `all` only raises the flag. */
  lemma CutShort(ctx: Context, rows: seq<Row>, all: seq<Row>, p: Page, q: Page)
    requires Printed(ctx, rows, p, q) && q.count >= MAX_TREE_NODES
    requires rows <= all && |rows| < |all| && Known(ctx, all)
    ensures Printed(ctx, all, p, q.(truncated := true))
  {
    var rest := all[|rows|..];
    assert all == rows + rest;
    FullPagePrintsNothing(ctx, rest, q);
    PrintedThenPrinted(ctx, rows, rest, p, q, q.(truncated := true));
  }

  lemma {:induction false} FullPagePrintsNothing(ctx: Context, rows: seq<Row>, p: Page)
    requires Known(ctx, rows) && p.count >= MAX_TREE_NODES && rows != []
    ensures Printed(ctx, rows, p, p.(truncated := true))
  {
    if |rows| > 1 { FullPagePrintsNothing(ctx, rows[..|rows| - 1], p); }
  }

  lemma OneMoreKidPrinted(ctx: Context, ids: seq<int>, k: nat, trail: seq<bool>, visited: set<int>, p: Page, q: Page,
                          r: Page)
    requires ClosedContext(ctx) && AllKnown(ctx, ids) && 0 < k <= |ids|
    requires Printed(ctx, Kids(ctx, ids, k - 1, trail, visited), p, q)
    requires Printed(ctx, Unfold(ctx, ids[k - 1], TrailOf(false, trail, k == |ids|), visited), q, r)
    ensures Printed(ctx, Kids(ctx, ids, k, trail, visited), p, r)
  {
    PrintedThenPrinted(ctx, Kids(ctx, ids, k - 1, trail, visited),
                       Unfold(ctx, ids[k - 1], trail + [k == |ids|], visited), p, q, r);
  }

  /** The trail of a root, or of a child of the node with trail `parent`. */
  function TrailOf(isRoot: bool, parent: seq<bool>, isLastSibling: bool): seq<bool> {
    if isRoot then [] else parent + [isLastSibling]
  }

  lemma ChildTrail(trail: seq<bool>, last: bool)
    ensures (trail + [last])[..|trail|] == trail && (trail + [last])[|trail|] == last
  {
  }

  lemma KidsCutShort(ctx: Context, ids: seq<int>, i: nat, trail: seq<bool>, visited: set<int>, p: Page, q: Page)
    requires ClosedContext(ctx) && AllKnown(ctx, ids) && i < |ids|
    requires Printed(ctx, Kids(ctx, ids, i, trail, visited), p, q) && q.count >= MAX_TREE_NODES
    ensures Printed(ctx, Kids(ctx, ids, |ids|, trail, visited), p, q.(truncated := true))
  {
    KidsGrow(ctx, ids, i, |ids|, trail, visited);
    KidsKnown(ctx, ids, |ids|, trail, visited);
    CutShort(ctx, Kids(ctx, ids, i, trail, visited), Kids(ctx, ids, |ids|, trail, visited), p, q);
  }

  lemma RootsCutShort(ctx: Context, ids: seq<int>, i: nat, p: Page, q: Page)
    requires ClosedContext(ctx) && AllKnown(ctx, ids) && i < |ids|
    requires Printed(ctx, Roots(ctx, ids, i), p, q) && q.count >= MAX_TREE_NODES
    ensures Printed(ctx, Forest(ctx, ids), p, q.(truncated := true))
  {
    RootsGrow(ctx, ids, i, |ids|);
    RootsKnown(ctx, ids, |ids|);
    CutShort(ctx, Roots(ctx, ids, i), Forest(ctx, ids), p, q);
  }

  lemma OneMoreRootPrinted(ctx: Context, ids: seq<int>, k: nat, p: Page, q: Page, r: Page)
    requires ClosedContext(ctx) && AllKnown(ctx, ids) && 0 < k <= |ids|
    requires Printed(ctx, Roots(ctx, ids, k - 1), p, q)
    requires Printed(ctx, Unfold(ctx, ids[k - 1], TrailOf(true, [], true), {}), q, r)
    ensures Printed(ctx, Roots(ctx, ids, k), p, r)
  {
    PrintedThenPrinted(ctx, Roots(ctx, ids, k - 1), Unfold(ctx, ids[k - 1], [], {}), p, q, r);
  }

  lemma OneLine(ctx: Context, row: Row, p: Page)
    requires row.id in ctx.table && row.id in ctx.inDegree && p.count < MAX_TREE_NODES
    ensures Printed(ctx, [row], p, Page(p.out + [Line(ctx.table[row.id], row.trail)], p.count + 1, p.truncated))
  {
    assert [row][..0] == [];
  }

  /** `walk` together with the two variables it closes over, the line buffer and the counter. */
  class TextRenderer {
    const ctx: Context
    const counter: TreeCounter
    var out: seq<string>

    constructor (ctx: Context, counter: TreeCounter)
      ensures this.ctx == ctx && this.counter == counter && out == []
    {
      this.ctx, this.counter, out := ctx, counter, [];
    }

    ghost function Now(): Page
      reads this, counter
    {
      Page(out, counter.count, counter.truncated)
    }

    /** `parent` is the trail of the parent; its `prefix` is the trunk printed before the connector. */
    method Walk(id: int, prefix: string, isLastSibling: bool, isRoot: bool, visited: set<int>, ghost parent: seq<bool>)
      requires ClosedContext(ctx) && id in ctx.table
      requires !isRoot ==> prefix == Prefix(parent)
      modifies this, counter
      ensures Printed(ctx, Unfold(ctx, id, TrailOf(isRoot, parent, isLastSibling), visited), old(Now()), Now())
      decreases ctx.table.Keys - visited, 0
    {
      ghost var trail := TrailOf(isRoot, parent, isLastSibling);
      ChildTrail(parent, isLastSibling);
      ghost var before, all := Now(), Unfold(ctx, id, trail, visited);
      UnfoldKnown(ctx, id, trail, visited);
      if counter.count >= MAX_TREE_NODES {
        counter.truncated := true;
        FullPagePrintsNothing(ctx, all, before);
        return;
      }
      var task := ctx.table[id];
      counter.count := counter.count + 1;
      var line := if isRoot then TaskLabel(task)
                  else prefix + Connector(isLastSibling) + " " + TaskLabel(task);
      out := out + [line];
      OneLine(ctx, all[0], before);
      if id in visited {
        return;
      }
      ghost var between := Now();
      assert id in ctx.table.Keys - visited;
      var childPrefix := if isRoot then "" else prefix + Unit(isLastSibling);
      WalkChildren(ctx.children[id], childPrefix, visited + {id}, trail);
      PrintedThenPrinted(ctx, [all[0]], all[1..], before, between, Now());
    }

    /** The loop of `walk` over the children of one node. */
    method WalkChildren(childIds: seq<int>, childPrefix: string, nextVisited: set<int>, ghost trail: seq<bool>)
      requires ClosedContext(ctx) && AllKnown(ctx, childIds)
      requires childPrefix == Prefix(trail)
      modifies this, counter
      ensures Printed(ctx, Kids(ctx, childIds, |childIds|, trail, nextVisited), old(Now()), Now())
      decreases ctx.table.Keys - nextVisited, 1
    {
      ghost var before := Now();
      for i := 0 to |childIds|
        invariant Printed(ctx, Kids(ctx, childIds, i, trail, nextVisited), before, Now())
      {
        ghost var between := Now();
        if counter.count >= MAX_TREE_NODES {
          counter.truncated := true;
          KidsCutShort(ctx, childIds, i, trail, nextVisited, before, between);
          break;
        }
        assert childIds[i] in childIds;
        var last := i + 1 == |childIds|;
        Walk(childIds[i], childPrefix, last, false, nextVisited, trail);
        OneMoreKidPrinted(ctx, childIds, i + 1, trail, nextVisited, before, between, Now());
      }
    }

    /** The root loop of `renderTextLines`. */
    method RenderTextLines(rootIds: seq<int>)
      requires ClosedContext(ctx) && AllKnown(ctx, rootIds)
      requires counter.count == 0 && !counter.truncated && out == []
      modifies this, counter
      ensures Known(ctx, Forest(ctx, rootIds))
      ensures out == Lines(ctx, Take(Forest(ctx, rootIds), MAX_TREE_NODES))
      ensures counter.truncated <==> |Forest(ctx, rootIds)| > MAX_TREE_NODES
    {
      ghost var before := Now();
      for i := 0 to |rootIds|
        invariant Printed(ctx, Roots(ctx, rootIds, i), before, Now())
      {
        ghost var between := Now();
        if counter.count >= MAX_TREE_NODES {
          counter.truncated := true;
          RootsCutShort(ctx, rootIds, i, before, between);
          break;
        }
        Walk(rootIds[i], "", true, true, {}, []);
        OneMoreRootPrinted(ctx, rootIds, i + 1, before, between, Now());
      }
      PageOfRows(ctx, Forest(ctx, rootIds));
    }
  }

  // --- reading a line back ----------------------------------------------------------------------

  datatype Item = Item(depth: nat, id: int)

  function ReadDigit(c: char): (d: int)
    ensures -1 <= d < 10
  {
    if '0' <= c <= '9' then c as int - '0' as int else -1
  }

  /** The number at the start of `s`, read up to the first character that is no digit. */
  function ReadDecimal(s: string, acc: nat): nat {
    if s == "" || ReadDigit(s[0]) < 0 then acc
    else ReadDecimal(s[1..], 10 * acc + ReadDigit(s[0]))
  }

  /** Strips indentation units until a connector or a label starts. */
  function ReadLine(line: string): Item
    decreases |line|
  {
    if |line| > 0 && line[0] == '#' then Item(0, ReadDecimal(line[1..], 0))
    else if |line| >= 5 && (line[..3] == TEE || line[..3] == ELBOW) then Item(1, ReadDecimal(line[5..], 0))
    else if |line| >= 4 then
      var rest := ReadLine(line[4..]);
      Item(rest.depth + 1, rest.id)
    else Item(0, 0)
  }

  lemma {:induction false} ReadDecimalStep(s: string, d: nat, tail: string, acc: nat)
    requires d < 10 && forall i :: 0 <= i < |s| ==> ReadDigit(s[i]) >= 0
    requires tail != "" && ReadDigit(tail[0]) < 0
    ensures ReadDecimal(s + [Digit(d)] + tail, acc) == 10 * ReadDecimal(s + tail, acc) + d
    decreases |s|
  {
    var whole := s + [Digit(d)] + tail;
    if s == "" {
      assert whole[1..] == tail && s + tail == tail;
      assert ReadDigit(Digit(d)) == d;
    } else {
      assert whole[1..] == s[1..] + [Digit(d)] + tail;
      assert (s + tail)[1..] == s[1..] + tail;
      ReadDecimalStep(s[1..], d, tail, 10 * acc + ReadDigit(s[0]));
    }
  }

  lemma {:induction false} DecimalReadsBack(n: nat, tail: string)
    requires tail != "" && ReadDigit(tail[0]) < 0
    ensures ReadDecimal(Decimal(n) + tail, 0) == n
    ensures forall i :: 0 <= i < |Decimal(n)| ==> ReadDigit(Decimal(n)[i]) >= 0
  {
    if n < 10 {
      assert (Decimal(n) + tail)[1..] == tail;
      assert ReadDigit(Digit(n)) == n;
    } else {
      DecimalReadsBack(n / 10, tail);
      ReadDecimalStep(Decimal(n / 10), n % 10, tail, 0);
      assert ReadDigit(Digit(n % 10)) == n % 10;
    }
  }

  lemma {:induction false} PrefixReadsBack(trail: seq<bool>, rest: string)
    requires |rest| >= 5
    ensures ReadLine(Prefix(trail) + rest) == Item(|trail| + ReadLine(rest).depth, ReadLine(rest).id)
  {
    if trail == [] {
      assert Prefix(trail) + rest == rest;
    } else {
      var init, unit := trail[..|trail| - 1], Unit(trail[|trail| - 1]);
      var whole := unit + rest;
      assert whole[4..] == rest;
      assert whole[0] == unit[0];
      assert whole[..3][0] == unit[0];
      assert ReadLine(whole) == Item(ReadLine(rest).depth + 1, ReadLine(rest).id);
      assert Prefix(trail) + rest == Prefix(init) + whole;
      PrefixReadsBack(init, whole);
    }
  }

  /** What follows the number in a label. */
  function LabelTail(t: Task): string {
    " " + [Glyph(t.status)] + " " + t.title + " (" + PriorityName(t.priority) + ")"
  }

  lemma LabelParts(t: Task)
    ensures TaskLabel(t) == "#" + (Decimal(t.id) + LabelTail(t))
    ensures TaskLabel(t)[1..] == Decimal(t.id) + LabelTail(t)
  {
  }

  lemma BranchParts(t: Task, trail: seq<bool>)
    requires trail != []
    ensures var rest := Connector(trail[|trail| - 1]) + " " + TaskLabel(t);
            && Line(t, trail) == Prefix(trail[..|trail| - 1]) + rest
            && rest[..3] == Connector(trail[|trail| - 1])
            && rest[5..] == TaskLabel(t)[1..]
  {
  }

  /** Whatever the title contains, a printed line gives back its depth and its task id. */
  lemma LineReadsBack(t: Task, trail: seq<bool>)
    ensures ReadLine(Line(t, trail)) == Item(|trail|, t.id)
  {
    DecimalReadsBack(t.id, LabelTail(t));
    LabelParts(t);
    if trail != [] {
      BranchParts(t, trail);
      PrefixReadsBack(trail[..|trail| - 1], Connector(trail[|trail| - 1]) + " " + TaskLabel(t));
    }
  }

  /** A label spelled out. */
  lemma SampleLabel()
    ensures TaskLabel(Task(40, "ok", InProgress, High, 0)) == "#40 \U{25D0} ok (high)"
  {
    assert Decimal(40) == "40";
  }

  /** What the label shows of status and priority; done and closed share a glyph, and so do open and backlogged. */
  lemma LabelSymbols(t: Task)
    ensures Glyph(t.status) == '\U{25CB}' <==> t.status == Open || t.status == Backlogged
    ensures Glyph(t.status) == '\U{25D0}' <==> t.status == InProgress
    ensures Glyph(t.status) == '\U{2713}' <==> t.status == Done || t.status == Closed
    ensures Glyph(t.status) == '\U{2717}' <==> t.status == Blocked
    ensures PriorityName(t.priority) == "urgent" <==> t.priority == Urgent
    ensures PriorityName(t.priority) == "high" <==> t.priority == High
    ensures PriorityName(t.priority) == "medium" <==> t.priority == Medium
    ensures PriorityName(t.priority) == "low" <==> t.priority == Low
  {
    assert |"urgent"| == 6 && |"high"| == 4 && |"medium"| == 6 && |"low"| == 3 && "urgent"[0] != "medium"[0];
  }
}

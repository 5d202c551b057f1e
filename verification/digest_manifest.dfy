/** The `none` SCM backend: the digest manifest, its size+mtime fast path, and the diff. The walk below the
    repository root is abstracted to a finite map from tracked paths to files. */
module DigestManifest {
  import opened Wrappers
  import opened Sorting

  type Bytes = seq<int>
  type Hash = Bytes -> string

  /** `content` is the link target for a symbolic link. */
  datatype File = File(isLink: bool, content: Bytes, mtime: int)

  type Tree = map<string, File>

  /** One file met by the walk. */
  datatype Dirent = Dirent(path: string, file: File)

  datatype Entry = Entry(path: string, size: nat, mtime: int, sha256: string)

  datatype Manifest = Manifest(capturedAt: int, entries: seq<Entry>)

  datatype Kind = Added | Modified | Deleted

  datatype Change = Change(path: string, kind: Kind)

  // --- building entries ---------------------------------------------------------------------------

  function HashedEntry(H: Hash, path: string, file: File): Entry {
    Entry(path, |file.content|, file.mtime, H(file.content))
  }

  /** The recorded digest may stand in: a regular file of unchanged size and mtime, strictly older than the
      capture tick. Without a cutoff every age is old enough. */
  predicate FastPath(file: File, path: string, prev: map<string, Entry>, cutoff: Option<int>) {
    && !file.isLink && path in prev
    && prev[path].size == |file.content| && prev[path].mtime == file.mtime
    && (cutoff.Some? ==> file.mtime < cutoff.value)
  }

  function ScannedEntry(H: Hash, path: string, file: File, prev: map<string, Entry>, cutoff: Option<int>): Entry {
    if FastPath(file, path, prev, cutoff) then prev[path] else HashedEntry(H, path, file)
  }

  predicate LexLeq(a: string, b: string) {
    a == "" || (b != "" && (a[0] < b[0] || (a[0] == b[0] && LexLeq(a[1..], b[1..]))))
  }

  predicate PathOrder(a: Entry, b: Entry) { LexLeq(a.path, b.path) }

  /** A listing names every tracked file once, in whatever order the file system yields them. */
  ghost predicate Lists(order: seq<Dirent>, tree: Tree) {
    && (forall d <- order :: d.path in tree && tree[d.path] == d.file)
    && (forall p <- tree :: Dirent(p, tree[p]) in order)
    && forall i, j :: 0 <= i < j < |order| ==> order[i] != order[j]
  }

  /** What the walk records for one file. */
  function Scanner(H: Hash, prev: map<string, Entry>, cutoff: Option<int>): Dirent -> Entry {
    (d: Dirent) => ScannedEntry(H, d.path, d.file, prev, cutoff)
  }

  function Scanned(H: Hash, order: seq<Dirent>, prev: map<string, Entry>, cutoff: Option<int>): seq<Entry> {
    Sort(PathOrder, Mapped(Scanner(H, prev, cutoff), order))
  }

  /** `a` comes before `b`: a proper start of it, or smaller at the first character where they differ. */
  ghost predicate ComesBefore(a: string, b: string) {
    (a <= b && a != b) || exists k :: 0 <= k < |a| && k < |b| && a[..k] == b[..k] && a[k] < b[k]
  }

  lemma SameStart(a: string, b: string, k: nat)
    requires k < |a| && k < |b| && a[..k] == b[..k]
    ensures k == 0 || a[0] == b[0]
  {
    if k > 0 { assert a[0] == a[..k][0] && b[0] == b[..k][0]; }
  }

  lemma {:induction false} LexIsFirstDifference(a: string, b: string)
    ensures LexLeq(a, b) <==> a == b || ComesBefore(a, b)
  {
    if a != "" && b != "" && a[0] == b[0] {
      var x, y := a[1..], b[1..];
      LexIsFirstDifference(x, y);
      assert a == [a[0]] + x && b == [a[0]] + y;
      if k :| 0 <= k < |x| && k < |y| && x[..k] == y[..k] && x[k] < y[k] {
        assert a[..k + 1] == [a[0]] + x[..k] && b[..k + 1] == [a[0]] + y[..k] && a[k + 1] < b[k + 1];
      }
      if k :| 0 <= k < |a| && k < |b| && a[..k] == b[..k] && a[k] < b[k] {
        assert x[..k - 1] == a[..k][1..] && y[..k - 1] == b[..k][1..] && x[k - 1] < y[k - 1];
      }
    } else if a != "" && b != "" {
      if k :| 0 <= k < |a| && k < |b| && a[..k] == b[..k] && a[k] < b[k] {
        SameStart(a, b, k);
      }
      if a[0] < b[0] {
        assert a[..0] == b[..0];
      }
    }
  }

  /** The entry of one file, told by its fields: the recorded one for a regular file whose recorded size and mtime
      it still has and whose mtime is before the cutoff; otherwise size, mtime and the hash of the content. */
  predicate Records(H: Hash, d: Dirent, prev: map<string, Entry>, cutoff: Option<int>, e: Entry) {
    if !d.file.isLink && d.path in prev && prev[d.path].size == |d.file.content| && prev[d.path].mtime == d.file.mtime
       && (cutoff != None ==> cutoff.value > d.file.mtime)
    then e == prev[d.path]
    else e.path == d.path && e.size == |d.file.content| && e.mtime == d.file.mtime && e.sha256 == H(d.file.content)
  }

  ghost predicate IsRecorded(H: Hash, d: Dirent, prev: map<string, Entry>, cutoff: Option<int>, entries: seq<Entry>) {
    exists j :: 0 <= j < |entries| && Records(H, d, prev, cutoff, entries[j])
  }

  ghost predicate IsOfListed(H: Hash, order: seq<Dirent>, prev: map<string, Entry>, cutoff: Option<int>, e: Entry) {
    exists i :: 0 <= i < |order| && Records(H, order[i], prev, cutoff, e)
  }

  /** The entries are those of the listed files, each file's and no others. */
  ghost predicate RecordsAll(H: Hash, order: seq<Dirent>, prev: map<string, Entry>, cutoff: Option<int>,
                             entries: seq<Entry>) {
    && |entries| == |order|
    && (forall i :: 0 <= i < |order| ==> IsRecorded(H, order[i], prev, cutoff, entries))
    && (forall j :: 0 <= j < |entries| ==> IsOfListed(H, order, prev, cutoff, entries[j]))
  }

  ghost predicate Ascending(entries: seq<Entry>) {
    forall i, j :: 0 <= i < j < |entries| ==> ComesBefore(entries[i].path, entries[j].path)
  }

  /** Sorting neither drops nor invents entries. */
  lemma ScanPermutes(H: Hash, order: seq<Dirent>, prev: map<string, Entry>, cutoff: Option<int>)
    ensures var scan := Scanned(H, order, prev, cutoff);
            && |scan| == |order|
            && (forall i :: 0 <= i < |order| ==> Scanner(H, prev, cutoff)(order[i]) in scan)
            && (forall e <- scan :: exists i :: 0 <= i < |order| && Scanner(H, prev, cutoff)(order[i]) == e)
  {
    var f, scan := Scanner(H, prev, cutoff), Scanned(H, order, prev, cutoff);
    var raw := Mapped(f, order);
    MappedAt(f, order);
    SameElements(raw, scan);
    forall i | 0 <= i < |order| ensures f(order[i]) in scan {
      assert raw[i] in raw;
    }
    forall e | e in scan ensures exists i :: 0 <= i < |order| && f(order[i]) == e {
      var i :| 0 <= i < |raw| && raw[i] == e;
      assert f(order[i]) == e;
    }
  }

  lemma ListedIsRecorded(H: Hash, order: seq<Dirent>, prev: map<string, Entry>, cutoff: Option<int>, i: nat)
    requires i < |order|
    ensures IsRecorded(H, order[i], prev, cutoff, Scanned(H, order, prev, cutoff))
  {
    ScanPermutes(H, order, prev, cutoff);
    var scan, e := Scanned(H, order, prev, cutoff), Scanner(H, prev, cutoff)(order[i]);
    var j :| 0 <= j < |scan| && scan[j] == e;
    assert Records(H, order[i], prev, cutoff, scan[j]);
  }

  lemma RecordedIsListed(H: Hash, order: seq<Dirent>, prev: map<string, Entry>, cutoff: Option<int>, e: Entry)
    requires e in Scanned(H, order, prev, cutoff)
    ensures IsOfListed(H, order, prev, cutoff, e)
  {
    ScanPermutes(H, order, prev, cutoff);
    var i :| 0 <= i < |order| && Scanner(H, prev, cutoff)(order[i]) == e;
    assert Records(H, order[i], prev, cutoff, e);
  }

  lemma ScanRecords(H: Hash, order: seq<Dirent>, prev: map<string, Entry>, cutoff: Option<int>)
    ensures RecordsAll(H, order, prev, cutoff, Scanned(H, order, prev, cutoff))
  {
    var scan := Scanned(H, order, prev, cutoff);
    ScanPermutes(H, order, prev, cutoff);
    forall i | 0 <= i < |order| ensures IsRecorded(H, order[i], prev, cutoff, scan) {
      ListedIsRecorded(H, order, prev, cutoff, i);
    }
    forall j | 0 <= j < |scan| ensures IsOfListed(H, order, prev, cutoff, scan[j]) {
      RecordedIsListed(H, order, prev, cutoff, scan[j]);
    }
  }

  /** The walk meets every path once, so the sorted entries ascend strictly. */
  lemma ScanAscends(H: Hash, tree: Tree, order: seq<Dirent>, prev: map<string, Entry>, cutoff: Option<int>)
    requires Lists(order, tree) && forall p <- prev :: prev[p].path == p
    ensures Ascending(Scanned(H, order, prev, cutoff))
  {
    var raw, scan := Mapped(Scanner(H, prev, cutoff), order), Scanned(H, order, prev, cutoff);
    WalkIsDistinct(H, tree, order, prev, cutoff);
    ScanIsDistinct(H, tree, order, prev, cutoff);
    var dom: set<Entry> := set e <- raw;
    forall x: Entry, y: Entry | x in dom && y in dom && x.path == y.path ensures x == y {
      var i :| 0 <= i < |raw| && raw[i] == x;
      var j :| 0 <= j < |raw| && raw[j] == y;
    }
    PathOrderIsTotal(dom);
    SortIsOrdered(PathOrder, raw, dom);
    forall i, j | 0 <= i < j < |scan| ensures ComesBefore(scan[i].path, scan[j].path) {
      assert PathOrder(scan[i], scan[j]);
      LexIsFirstDifference(scan[i].path, scan[j].path);
    }
  }

  method BuildEntries(H: Hash, order: seq<Dirent>, prev: map<string, Entry>, cutoff: Option<int>)
    returns (entries: seq<Entry>)
    ensures entries == Scanned(H, order, prev, cutoff)
    ensures RecordsAll(H, order, prev, cutoff, entries)
    ensures forall tree: Tree :: Lists(order, tree) && (forall p <- prev :: prev[p].path == p) ==> Ascending(entries)
  {
    entries := [];
    for i := 0 to |order|
      invariant entries == Mapped(Scanner(H, prev, cutoff), order[..i])
    {
      assert order[..i + 1][..i] == order[..i];
      var path, file := order[i].path, order[i].file;
      if file.isLink {
        entries := entries + [Entry(path, |file.content|, file.mtime, H(file.content))];
      } else if path in prev && prev[path].size == |file.content| && prev[path].mtime == file.mtime
                && (cutoff.None? || file.mtime < cutoff.value) {
        entries := entries + [prev[path]];
      } else {
        entries := entries + [Entry(path, |file.content|, file.mtime, H(file.content))];
      }
    }
    assert order[..|order|] == order;
    entries := Sort(PathOrder, entries);
    ScanRecords(H, order, prev, cutoff);
    forall tree: Tree | Lists(order, tree) && (forall p <- prev :: prev[p].path == p) ensures Ascending(entries) {
      ScanAscends(H, tree, order, prev, cutoff);
    }
  }

  lemma {:induction false} LexIsTotal(a: string, b: string)
    ensures LexLeq(a, b) || LexLeq(b, a)
    ensures LexLeq(a, b) && LexLeq(b, a) ==> a == b
  {
    if a != "" && b != "" {
      LexIsTotal(a[1..], b[1..]);
      assert a == [a[0]] + a[1..] && b == [b[0]] + b[1..];
    }
  }

  lemma {:induction false} LexIsTransitive(a: string, b: string, c: string)
    requires LexLeq(a, b) && LexLeq(b, c)
    ensures LexLeq(a, c)
  {
    if a != "" && b[0] == a[0] && c[0] == a[0] { LexIsTransitive(a[1..], b[1..], c[1..]); }
  }

  ghost predicate OnePerPath(entries: set<Entry>) {
    forall a, b :: a in entries && b in entries && a.path == b.path ==> a == b
  }

  lemma PathOrderIsTotal(entries: set<Entry>)
    requires OnePerPath(entries)
    ensures TotalOn(PathOrder, entries)
  {
    forall x, y | x in entries && y in entries
      ensures (PathOrder(x, y) || PathOrder(y, x)) && (PathOrder(x, y) && PathOrder(y, x) ==> x == y)
    {
      LexIsTotal(x.path, y.path);
    }
    forall x, y, z | x in entries && y in entries && z in entries && PathOrder(x, y) && PathOrder(y, z)
      ensures PathOrder(x, z)
    {
      LexIsTransitive(x.path, y.path, z.path);
    }
  }

  /** The manifest does not depend on the order in which directories are enumerated. */
  lemma EnumerationOrderIsIrrelevant(H: Hash, tree: Tree, a: seq<Dirent>, b: seq<Dirent>, prev: map<string, Entry>,
                                     cutoff: Option<int>)
    requires Lists(a, tree) && Lists(b, tree)
    requires forall p <- prev :: prev[p].path == p
    ensures Scanned(H, a, prev, cutoff) == Scanned(H, b, prev, cutoff)
  {
    var f := Scanner(H, prev, cutoff);
    SameListing(a, b);
    MappedPermutes(f, a, b);
    var dom := set e <- Mapped(f, a);
    forall x, y | x in dom && y in dom && x.path == y.path ensures x == y {
      MappedFrom(f, a, x);
      MappedFrom(f, a, y);
    }
    PathOrderIsTotal(dom);
    SameElements(Mapped(f, a), Mapped(f, b));
    SortIsOrdered(PathOrder, Mapped(f, b), dom);
    SortIsUnique(PathOrder, Mapped(f, a), Scanned(H, b, prev, cutoff), dom);
  }

  lemma SameListing(a: seq<Dirent>, b: seq<Dirent>)
    requires forall d :: d in a <==> d in b
    requires forall i, j :: 0 <= i < j < |a| ==> a[i] != a[j]
    requires forall i, j :: 0 <= i < j < |b| ==> b[i] != b[j]
    ensures multiset(a) == multiset(b)
  {
    forall d ensures multiset(a)[d] == multiset(b)[d] {
      OnceEach(a, d);
      OnceEach(b, d);
    }
  }

  lemma {:induction false} OnceEach(a: seq<Dirent>, d: Dirent)
    requires forall i, j :: 0 <= i < j < |a| ==> a[i] != a[j]
    ensures multiset(a)[d] == if d in a then 1 else 0
  {
    if a != [] {
      var init, last := a[..|a| - 1], a[|a| - 1];
      OnceEach(init, d);
      assert a == init + [last];
      assert last !in init;
    }
  }

  // --- the diff -----------------------------------------------------------------------------------

  predicate DistinctPaths(entries: seq<Entry>) {
    forall i, j :: 0 <= i < j < |entries| ==> entries[i].path != entries[j].path
  }

  /** Path to digest. */
  function Digests(entries: seq<Entry>): map<string, string> {
    if entries == [] then map[]
    else
      var last := entries[|entries| - 1];
      Digests(entries[..|entries| - 1])[last.path := last.sha256]
  }

  /** What the change of one path is, if any. */
  function ChangeOf(before: map<string, string>, after: map<string, string>, p: string): Option<Kind> {
    if p in after then
      if p !in before then Some(Added) else if before[p] != after[p] then Some(Modified) else None
    else if p in before then Some(Deleted) else None
  }

  /** Every change is reported, once, as what it is, and nothing else is. */
  ghost predicate ExactDiff(before: map<string, string>, after: map<string, string>, changes: seq<Change>) {
    && (forall i, j :: 0 <= i < j < |changes| ==> changes[i].path != changes[j].path)
    && (forall c <- changes :: ChangeOf(before, after, c.path) == Some(c.kind))
    && (forall p :: ChangeOf(before, after, p).Some? ==> exists c :: c in changes && c.path == p)
  }

  /** The same told by the two maps: what is in the list as added, as modified and as deleted. */
  ghost predicate TellsChanges(before: map<string, string>, after: map<string, string>, changes: seq<Change>) {
    && (forall i, j :: 0 <= i < j < |changes| ==> changes[i].path != changes[j].path)
    && forall p: string ::
         && (Change(p, Added) in changes <==> p !in before && p in after)
         && (Change(p, Modified) in changes <==> p in before && p in after && before[p] != after[p])
         && (Change(p, Deleted) in changes <==> p in before && p !in after)
  }

  lemma ExactDiffTells(before: map<string, string>, after: map<string, string>, changes: seq<Change>)
    requires ExactDiff(before, after, changes)
    ensures TellsChanges(before, after, changes)
  {
    forall p: string, kind: Kind ensures Change(p, kind) in changes <==> ChangeOf(before, after, p) == Some(kind) {
      if ChangeOf(before, after, p).Some? {
        var c :| c in changes && c.path == p;
      }
    }
  }

  method EntriesByPath(entries: seq<Entry>) returns (byPath: map<string, Entry>)
    ensures byPath == ByPath(entries)
  {
    byPath := map[];
    for i := 0 to |entries|
      invariant byPath == ByPath(entries[..i])
    {
      assert entries[..i + 1][..i] == entries[..i];
      byPath := byPath[entries[i].path := entries[i]];
    }
    assert entries[..|entries|] == entries;
  }

  /** The last entry of every path. */
  function ByPath(entries: seq<Entry>): map<string, Entry> {
    if entries == [] then map[]
    else
      var last := entries[|entries| - 1];
      ByPath(entries[..|entries| - 1])[last.path := last]
  }

  lemma {:induction false} ByPathDigests(entries: seq<Entry>)
    ensures ByPath(entries).Keys == Digests(entries).Keys
    ensures forall p <- ByPath(entries) ::
              ByPath(entries)[p].path == p && ByPath(entries)[p].sha256 == Digests(entries)[p]
  {
    if entries != [] { ByPathDigests(entries[..|entries| - 1]); }
  }

  /** The changes found by going through the current entries. */
  function Upserts(before: map<string, string>, current: seq<Entry>): seq<Change> {
    if current == [] then []
    else
      var e := current[|current| - 1];
      Upserts(before, current[..|current| - 1]) +
      (if e.path !in before then [Change(e.path, Added)]
       else if before[e.path] != e.sha256 then [Change(e.path, Modified)] else [])
  }

  /** The changes found by going through the previous entries. */
  function Removals(after: map<string, string>, previous: seq<Entry>): seq<Change> {
    if previous == [] then []
    else
      var e := previous[|previous| - 1];
      Removals(after, previous[..|previous| - 1]) + if e.path !in after then [Change(e.path, Deleted)] else []
  }

  method DiffEntries(previous: seq<Entry>, current: seq<Entry>) returns (changes: seq<Change>)
    requires DistinctPaths(previous) && DistinctPaths(current)
    ensures ExactDiff(Digests(previous), Digests(current), changes)
    ensures TellsChanges(Digests(previous), Digests(current), changes)
  {
    var prevByPath := EntriesByPath(previous);
    var currByPath := EntriesByPath(current);
    ghost var before, after := Digests(previous), Digests(current);
    ByPathDigests(previous);
    ByPathDigests(current);
    changes := [];
    for i := 0 to |current|
      invariant changes == Upserts(before, current[..i])
    {
      assert current[..i + 1][..i] == current[..i];
      var entry := current[i];
      if entry.path !in prevByPath {
        changes := changes + [Change(entry.path, Added)];
      } else if prevByPath[entry.path].sha256 != entry.sha256 {
        changes := changes + [Change(entry.path, Modified)];
      }
    }
    assert current[..|current|] == current;
    for i := 0 to |previous|
      invariant changes == Upserts(before, current) + Removals(after, previous[..i])
    {
      assert previous[..i + 1][..i] == previous[..i];
      var entry := previous[i];
      if entry.path !in currByPath {
        changes := changes + [Change(entry.path, Deleted)];
      }
    }
    assert previous[..|previous|] == previous;
    DiffIsExact(previous, current);
    ExactDiffTells(before, after, changes);
  }

  lemma {:induction false} DigestAt(entries: seq<Entry>, p: string)
    requires DistinctPaths(entries)
    ensures p in Digests(entries) <==> exists i :: 0 <= i < |entries| && entries[i].path == p
    ensures forall i :: 0 <= i < |entries| && entries[i].path == p ==> Digests(entries)[p] == entries[i].sha256
  {
    if entries != [] {
      var n := |entries| - 1;
      DigestAt(entries[..n], p);
      if i :| 0 <= i < n && entries[..n][i].path == p { assert entries[i].path == p; }
      forall i | 0 <= i < |entries| && entries[i].path == p
        ensures p in Digests(entries) && Digests(entries)[p] == entries[i].sha256
      {
        if i < n { assert entries[..n][i].path == p; }
      }
    }
  }

  lemma {:induction false} UpsertAt(before: map<string, string>, current: seq<Entry>, c: Change)
    ensures c in Upserts(before, current) <==>
            exists i :: 0 <= i < |current| && current[i].path == c.path &&
              if c.path !in before then c.kind.Added? else before[c.path] != current[i].sha256 && c.kind.Modified?
  {
    if current != [] {
      var n := |current| - 1;
      UpsertAt(before, current[..n], c);
      if i :| 0 <= i < n && current[..n][i].path == c.path &&
              if c.path !in before then c.kind.Added?
              else before[c.path] != current[..n][i].sha256 && c.kind.Modified? {
        assert current[i].path == c.path;
      }
      if i :| 0 <= i < n && current[i].path == c.path &&
              if c.path !in before then c.kind.Added? else before[c.path] != current[i].sha256 && c.kind.Modified? {
        assert current[..n][i].path == c.path;
      }
    }
  }

  lemma {:induction false} RemovalAt(after: map<string, string>, previous: seq<Entry>, c: Change)
    ensures c in Removals(after, previous) <==>
            c.kind.Deleted? && c.path !in after && exists i :: 0 <= i < |previous| && previous[i].path == c.path
  {
    if previous != [] {
      var n := |previous| - 1;
      RemovalAt(after, previous[..n], c);
      if i :| 0 <= i < n && previous[..n][i].path == c.path { assert previous[i].path == c.path; }
      if i :| 0 <= i < n && previous[i].path == c.path { assert previous[..n][i].path == c.path; }
    }
  }

  predicate OncePerPath(changes: seq<Change>) {
    forall i, j :: 0 <= i < j < |changes| ==> changes[i].path != changes[j].path
  }

  lemma {:induction false} UpsertsOnce(before: map<string, string>, current: seq<Entry>)
    requires DistinctPaths(current)
    ensures OncePerPath(Upserts(before, current))
  {
    if current != [] {
      var n := |current| - 1;
      UpsertsOnce(before, current[..n]);
      forall c | c in Upserts(before, current[..n]) ensures c.path != current[n].path {
        UpsertAt(before, current[..n], c);
      }
    }
  }

  lemma {:induction false} RemovalsOnce(after: map<string, string>, previous: seq<Entry>)
    requires DistinctPaths(previous)
    ensures OncePerPath(Removals(after, previous))
  {
    if previous != [] {
      var n := |previous| - 1;
      RemovalsOnce(after, previous[..n]);
      forall c | c in Removals(after, previous[..n]) ensures c.path != previous[n].path {
        RemovalAt(after, previous[..n], c);
      }
    }
  }

  lemma DiffIsExact(previous: seq<Entry>, current: seq<Entry>)
    requires DistinctPaths(previous) && DistinctPaths(current)
    ensures ExactDiff(Digests(previous), Digests(current),
                      Upserts(Digests(previous), current) + Removals(Digests(current), previous))
  {
    var before, after := Digests(previous), Digests(current);
    var u, r := Upserts(before, current), Removals(after, previous);
    UpsertsOnce(before, current);
    RemovalsOnce(after, previous);
    forall c: Change ensures c in u + r <==> ChangeOf(before, after, c.path) == Some(c.kind) {
      UpsertAt(before, current, c);
      RemovalAt(after, previous, c);
      DigestAt(previous, c.path);
      DigestAt(current, c.path);
      assert c in u + r <==> c in u || c in r;
    }
    forall c, d | c in u && d in r ensures c.path != d.path {
      RemovalAt(after, previous, d);
      UpsertAt(before, current, c);
      DigestAt(current, c.path);
    }
    assert OncePerPath(u + r);
    forall p | ChangeOf(before, after, p).Some? ensures exists c :: c in u + r && c.path == p {
      assert Change(p, ChangeOf(before, after, p).value) in u + r;
    }
  }

  /** The digests after carrying out a list of changes; added and modified paths take their digest from
      `source`. */
  function Patch(before: map<string, string>, changes: seq<Change>, source: map<string, string>): map<string, string>
    requires forall i :: 0 <= i < |changes| ==> changes[i].kind.Deleted? || changes[i].path in source
  {
    if changes == [] then before
    else
      var c := changes[|changes| - 1];
      var rest := Patch(before, changes[..|changes| - 1], source);
      if c.kind.Deleted? then rest - {c.path} else rest[c.path := source[c.path]]
  }

  lemma {:induction false} PatchAt(before: map<string, string>, changes: seq<Change>, source: map<string, string>,
                                   p: string)
    requires forall i :: 0 <= i < |changes| ==> changes[i].kind.Deleted? || changes[i].path in source
    requires forall i, j :: 0 <= i < j < |changes| ==> changes[i].path != changes[j].path
    ensures (forall i :: 0 <= i < |changes| ==> changes[i].path != p) ==>
              (p in Patch(before, changes, source) <==> p in before)
                && (p in before ==> Patch(before, changes, source)[p] == before[p])
    ensures forall i :: 0 <= i < |changes| && changes[i].path == p ==>
              (if changes[i].kind.Deleted? then p !in Patch(before, changes, source)
               else p in Patch(before, changes, source) && Patch(before, changes, source)[p] == source[p])
  {
    if changes != [] {
      PatchAt(before, changes[..|changes| - 1], source, p);
    }
  }

  /** The diff is a patch: carried out on the old digests it yields the new ones; and it is empty exactly
      when nothing changed. */
  lemma DiffIsPatch(before: map<string, string>, after: map<string, string>, changes: seq<Change>)
    requires ExactDiff(before, after, changes)
    ensures forall i :: 0 <= i < |changes| ==> changes[i].kind.Deleted? || changes[i].path in after
    ensures Patch(before, changes, after) == after
    ensures changes == [] <==> before == after
  {
    assert forall i :: 0 <= i < |changes| ==> changes[i] in changes;
    var patched := Patch(before, changes, after);
    forall p ensures (p in patched <==> p in after) && (p in after && p in patched ==> patched[p] == after[p]) {
      PatchAt(before, changes, after, p);
      if ChangeOf(before, after, p).Some? {
        var c :| c in changes && c.path == p;
        var i :| 0 <= i < |changes| && changes[i] == c;
      }
    }
    assert patched == after;
    assert changes != [] ==> ChangeOf(before, after, changes[0].path).Some?;
  }

  // --- status against a recorded baseline ---------------------------------------------------------

  datatype StatusReport = StatusReport(dirty: bool, entries: seq<Change>)

  /** The digests of the paths that are not excluded. */
  function Shown(digests: map<string, string>, excluded: string -> bool): map<string, string> {
    map p <- digests | !excluded(p) :: digests[p]
  }

  function Kept(changes: seq<Change>, excluded: string -> bool): seq<Change> {
    if changes == [] then []
    else
      var last := changes[|changes| - 1];
      Kept(changes[..|changes| - 1], excluded) + if excluded(last.path) then [] else [last]
  }

  lemma {:induction false} KeptExactly(changes: seq<Change>, excluded: string -> bool)
    ensures forall c :: c in Kept(changes, excluded) <==> c in changes && !excluded(c.path)
    ensures OncePerPath(changes) ==> OncePerPath(Kept(changes, excluded))
  {
    if changes != [] {
      var init, last := changes[..|changes| - 1], changes[|changes| - 1];
      assert changes == init + [last];
      KeptExactly(init, excluded);
      if OncePerPath(changes) {
        forall c | c in Kept(init, excluded) ensures c.path != last.path {
          assert c in init;
        }
      }
    }
  }

  /** Leaving excluded paths out of an exact diff gives the exact diff of what is not excluded. */
  lemma KeptIsExact(before: map<string, string>, after: map<string, string>, changes: seq<Change>,
                    excluded: string -> bool)
    requires ExactDiff(before, after, changes)
    ensures ExactDiff(Shown(before, excluded), Shown(after, excluded), Kept(changes, excluded))
  {
    KeptExactly(changes, excluded);
    forall p | ChangeOf(Shown(before, excluded), Shown(after, excluded), p).Some?
      ensures exists c :: c in Kept(changes, excluded) && c.path == p
    {
      assert ChangeOf(before, after, p).Some?;
      var c :| c in changes && c.path == p;
      assert c in Kept(changes, excluded);
    }
  }

  /** `status`: the changes since the recorded baseline, found with the fast path; without a baseline an error. */
  method Status(H: Hash, manifest: Option<Manifest>, excluded: string -> bool, order: seq<Dirent>, ghost tree: Tree)
    returns (report: Option<StatusReport>)
    requires Lists(order, tree) && (manifest.Some? ==> DistinctPaths(manifest.value.entries))
    ensures report.None? <==> manifest.None?
    ensures report.Some? ==>
              var m := manifest.value;
              var before := Shown(Digests(m.entries), excluded);
              var after := Shown(Digests(Scanned(H, order, ByPath(m.entries), Some(m.capturedAt))), excluded);
              && ExactDiff(before, after, report.value.entries)
              && TellsChanges(before, after, report.value.entries)
              && (report.value.dirty <==> before != after)
  {
    if manifest.None? {
      return None;
    }
    var m := manifest.value;
    var prev := EntriesByPath(m.entries);
    var current := BuildEntries(H, order, prev, Some(m.capturedAt));
    ByPathDigests(m.entries);
    ScanIsDistinct(H, tree, order, prev, Some(m.capturedAt));
    var changes := DiffEntries(m.entries, current);
    var entries := Kept(changes, excluded);
    KeptIsExact(Digests(m.entries), Digests(current), changes, excluded);
    DiffIsPatch(Shown(Digests(m.entries), excluded), Shown(Digests(current), excluded), entries);
    ExactDiffTells(Shown(Digests(m.entries), excluded), Shown(Digests(current), excluded), entries);
    report := Some(StatusReport(|entries| > 0, entries));
  }

  lemma ScanIsDistinct(H: Hash, tree: Tree, order: seq<Dirent>, prev: map<string, Entry>, cutoff: Option<int>)
    requires Lists(order, tree) && forall p <- prev :: prev[p].path == p
    ensures DistinctPaths(Scanned(H, order, prev, cutoff))
  {
    WalkIsDistinct(H, tree, order, prev, cutoff);
    DistinctPermutes(Mapped(Scanner(H, prev, cutoff), order), Scanned(H, order, prev, cutoff));
  }

  lemma WalkIsDistinct(H: Hash, tree: Tree, order: seq<Dirent>, prev: map<string, Entry>, cutoff: Option<int>)
    requires Lists(order, tree) && forall p <- prev :: prev[p].path == p
    ensures DistinctPaths(Mapped(Scanner(H, prev, cutoff), order))
  {
    MappedAt(Scanner(H, prev, cutoff), order);
    forall i, j | 0 <= i < j < |order| ensures order[i].path != order[j].path {
      assert order[i] in order && order[j] in order;
    }
  }

  lemma {:induction false} MappedAt(f: Dirent -> Entry, order: seq<Dirent>)
    ensures |Mapped(f, order)| == |order|
    ensures forall i :: 0 <= i < |order| ==> Mapped(f, order)[i] == f(order[i])
  {
    if order != [] { MappedAt(f, order[..|order| - 1]); }
  }

  lemma DistinctPermutes(a: seq<Entry>, b: seq<Entry>)
    requires multiset(a) == multiset(b) && DistinctPaths(a)
    ensures DistinctPaths(b)
  {
    SameElements(a, b);
    forall i, j | 0 <= i < j < |b| ensures b[i].path != b[j].path {
      assert b[i] in b && b[j] in b;
      var x :| 0 <= x < |a| && a[x] == b[i];
      var y :| 0 <= y < |a| && a[y] == b[j];
      if x == y {
        TwiceCounts(b, i, j);
        OnceCounts(a, x);
      }
    }
  }

  lemma TwiceCounts(b: seq<Entry>, i: nat, j: nat)
    requires i < j < |b| && b[i] == b[j]
    ensures multiset(b)[b[i]] >= 2
  {
    assert b == b[..i] + [b[i]] + b[i + 1..j] + [b[j]] + b[j + 1..];
  }

  lemma OnceCounts(a: seq<Entry>, x: nat)
    requires x < |a| && DistinctPaths(a)
    ensures multiset(a)[a[x]] == 1
  {
    assert a == a[..x] + [a[x]] + a[x + 1..];
    assert a[x] !in a[..x] && a[x] !in a[x + 1..];
  }

  // --- the fast path over runs ----------------------------------------------------------------------

  /** A baseline in progress: the entries of its walk, and the paths whose file may have changed since without
      showing it. */
  datatype Walk = Walk(entries: seq<Entry>, suspect: set<string>)

  /** The file system, its clock, the recorded baseline, and the paths whose file may differ from the record
      without showing it. */
  datatype World = World(clock: int, tree: Tree, manifest: Option<Manifest>, suspect: set<string>, walk: Option<Walk>)

  /** A baseline takes two steps: the walk that hashes every file, and the capture, whose tick the manifest
      records. */
  datatype Step =
    | Tick(elapsed: nat)
    | Write(path: string, isLink: bool, content: Bytes)
    | Delete(path: string)
    | Move(path: string, target: string)
    | Restore(path: string, isLink: bool, content: Bytes, mtime: int)
    | WalkTree(order: seq<Dirent>)
    | Capture

  /** A write that leaves size and time as the walk recorded them. */
  predicate LooksUnchanged(entries: seq<Entry>, path: string, content: Bytes, clock: int) {
    path in ByPath(entries) && ByPath(entries)[path].size == |content| && ByPath(entries)[path].mtime == clock
  }

  function Cleared(walk: Option<Walk>, path: string): Option<Walk> {
    if walk.None? then None else Some(walk.value.(suspect := walk.value.suspect - {path}))
  }

  function Suspected(walk: Option<Walk>, path: string): Option<Walk> {
    if walk.None? then None else Some(walk.value.(suspect := walk.value.suspect + {path}))
  }

  /** A write stamps the current tick, a move keeps the old stamp, and a restore (a copy that preserves times, or a
      write followed by setting the time) stamps whatever it likes. Any number of writes can fall into the tick
      of a baseline, before, within or after it. */
  function Apply(H: Hash, w: World, step: Step): World {
    match step
    case Tick(elapsed) => w.(clock := w.clock + elapsed)
    case Write(path, isLink, content) =>
      w.(tree := w.tree[path := File(isLink, content, w.clock)], suspect := w.suspect - {path},
         walk := if Races(w, step) then Suspected(w.walk, path) else Cleared(w.walk, path))
    case Delete(path) => w.(tree := w.tree - {path}, suspect := w.suspect - {path}, walk := Cleared(w.walk, path))
    case Move(path, target) =>
      if path !in w.tree then w
      else w.(tree := (w.tree - {path})[target := w.tree[path]], suspect := w.suspect - {path} + {target},
              walk := Suspected(Cleared(w.walk, path), target))
    case Restore(path, isLink, content, mtime) =>
      w.(tree := w.tree[path := File(isLink, content, mtime)], suspect := w.suspect + {path},
         walk := Suspected(w.walk, path))
    case WalkTree(order) => w.(walk := Some(Walk(Scanned(H, order, map[], None), {})))
    case Capture =>
      if w.walk.None? then w
      else w.(manifest := Some(Manifest(w.clock, w.walk.value.entries)), suspect := w.walk.value.suspect, walk := None)
  }

  /** The write falls between a walk and its capture, into the tick and at the size that the walk recorded. */
  predicate Races(w: World, step: Step) {
    step.Write? && w.walk.Some? && LooksUnchanged(w.walk.value.entries, step.path, step.content, w.clock)
  }

  function Run(H: Hash, w: World, steps: seq<Step>): World {
    if steps == [] then w else Apply(H, Run(H, w, steps[..|steps| - 1]), steps[|steps| - 1])
  }

  ghost predicate Legal(H: Hash, w: World, steps: seq<Step>) {
    forall i {:trigger steps[i]} :: 0 <= i < |steps| && steps[i].WalkTree? ==>
                                      Lists(steps[i].order, Run(H, w, steps[..i]).tree)
  }

  /** Outside `suspect` a file that passes for the recorded one has its digest. */
  ghost predicate Faithful(H: Hash, tree: Tree, entries: seq<Entry>, suspect: set<string>, cutoff: Option<int>) {
    forall p <- tree :: p !in suspect && FastPath(tree[p], p, ByPath(entries), cutoff) ==>
                          ByPath(entries)[p].sha256 == H(tree[p].content)
  }

  ghost predicate Inv(H: Hash, w: World) {
    && (w.manifest.Some? ==>
          && w.manifest.value.capturedAt <= w.clock
          && Faithful(H, w.tree, w.manifest.value.entries, w.suspect, Some(w.manifest.value.capturedAt)))
    && (w.walk.Some? ==> Faithful(H, w.tree, w.walk.value.entries, w.walk.value.suspect, None))
  }

  lemma BaselineRecords(H: Hash, tree: Tree, order: seq<Dirent>, p: string)
    requires Lists(order, tree) && p in tree
    ensures var prev := ByPath(Scanned(H, order, map[], None)); p in prev && prev[p] == HashedEntry(H, p, tree[p])
  {
    ScanFinds(H, tree, order, map[], None, p);
  }

  lemma {:induction false} ByPathFinds(entries: seq<Entry>, e: Entry)
    requires e in entries && DistinctPaths(entries)
    ensures e.path in ByPath(entries) && ByPath(entries)[e.path] == e
  {
    var n := |entries| - 1;
    if entries[n] != e {
      assert entries == entries[..n] + [entries[n]];
      var i :| 0 <= i < n && entries[i] == e;
      ByPathFinds(entries[..n], e);
    }
  }

  lemma StepKeepsInv(H: Hash, w: World, step: Step)
    requires Inv(H, w) && (step.WalkTree? ==> Lists(step.order, w.tree))
    ensures Inv(H, Apply(H, w, step))
  {
    if step.WalkTree? {
      var prev := ByPath(Scanned(H, step.order, map[], None));
      forall p | p in w.tree ensures p in prev && prev[p] == HashedEntry(H, p, w.tree[p]) {
        BaselineRecords(H, w.tree, step.order, p);
      }
    }
  }

  lemma LegalInit(H: Hash, w: World, steps: seq<Step>)
    requires Legal(H, w, steps) && steps != []
    ensures Legal(H, w, steps[..|steps| - 1])
    ensures steps[|steps| - 1].WalkTree? ==> Lists(steps[|steps| - 1].order, Run(H, w, steps[..|steps| - 1]).tree)
  {
    var n := |steps| - 1;
    forall i | 0 <= i < n && steps[..n][i].WalkTree?
      ensures Lists(steps[..n][i].order, Run(H, w, steps[..n][..i]).tree)
    {
      assert steps[..n][..i] == steps[..i] && steps[i] == steps[..n][i];
    }
  }

  lemma {:induction false} RunKeepsInv(H: Hash, w: World, steps: seq<Step>)
    requires Inv(H, w) && Legal(H, w, steps)
    ensures Inv(H, Run(H, w, steps))
  {
    if steps != [] {
      LegalInit(H, w, steps);
      RunKeepsInv(H, w, steps[..|steps| - 1]);
      StepKeepsInv(H, Run(H, w, steps[..|steps| - 1]), steps[|steps| - 1]);
    }
  }

  /** Step `k` of the run can make a file differ from its record without showing it. */
  predicate Deceives(H: Hash, w: World, steps: seq<Step>, k: nat)
    requires k < |steps|
  {
    steps[k].Move? || steps[k].Restore? || Races(Run(H, w, steps[..k]), steps[k])
  }

  predicate Unsuspected(w: World) {
    w.suspect == {} && (w.walk.Some? ==> w.walk.value.suspect == {})
  }

  lemma {:induction false} NoSuspects(H: Hash, w: World, steps: seq<Step>, n: nat)
    requires n <= |steps| && Unsuspected(w) && forall k: nat :: k < |steps| ==> !Deceives(H, w, steps, k)
    ensures Unsuspected(Run(H, w, steps[..n]))
  {
    if n > 0 {
      NoSuspects(H, w, steps, n - 1);
      assert steps[..n][..n - 1] == steps[..n - 1];
      assert !Deceives(H, w, steps, n - 1);
    }
  }

  /** No suspect file passes for the recorded one with another digest. */
  ghost predicate SuspectsAgree(H: Hash, end: World, m: Manifest) {
    forall p <- end.suspect :: p in end.tree && FastPath(end.tree[p], p, ByPath(m.entries), Some(m.capturedAt)) ==>
                                 ByPath(m.entries)[p].sha256 == H(end.tree[p].content)
  }

  /** The fast path refines full re-hashing. After any run of writes, deletes, moves, restores, baselines and ticks
      the scan that reuses recorded digests returns entry by entry what hashing every file returns, if and only if
      no suspect file passes for the recorded one with another digest. A file is suspect when it was moved or
      restored to where it is, or rewritten while the baseline was being taken, in the tick and at the size that the
      walk had just recorded. Rewrites after the capture, in its very tick included, never make a file suspect. */
  lemma FastPathIsExact(H: Hash, w: World, steps: seq<Step>, order: seq<Dirent>)
    requires Inv(H, w) && Legal(H, w, steps)
    requires var end := Run(H, w, steps); end.manifest.Some? && Lists(order, end.tree)
    ensures var end := Run(H, w, steps); var m := end.manifest.value;
            Scanned(H, order, ByPath(m.entries), Some(m.capturedAt)) == Scanned(H, order, map[], None) <==>
            SuspectsAgree(H, end, m)
    ensures Unsuspected(w) && (forall k: nat :: k < |steps| ==> !Deceives(H, w, steps, k)) ==>
              var m := Run(H, w, steps).manifest.value;
              Scanned(H, order, ByPath(m.entries), Some(m.capturedAt)) == Scanned(H, order, map[], None)
  {
    RunKeepsInv(H, w, steps);
    var end := Run(H, w, steps);
    if Unsuspected(w) && forall k: nat :: k < |steps| ==> !Deceives(H, w, steps, k) {
      NoSuspects(H, w, steps, |steps|);
      assert steps[..|steps|] == steps;
    }
    if SuspectsAgree(H, end, end.manifest.value) { ScansAgree(H, end, end.manifest.value, order); }
    if Scanned(H, order, ByPath(end.manifest.value.entries), Some(end.manifest.value.capturedAt)) ==
       Scanned(H, order, map[], None) {
      AgreementIsNeeded(H, end, end.manifest.value, order);
    }
  }

  lemma AgreementIsNeeded(H: Hash, end: World, m: Manifest, order: seq<Dirent>)
    requires Lists(order, end.tree)
    requires Scanned(H, order, ByPath(m.entries), Some(m.capturedAt)) == Scanned(H, order, map[], None)
    ensures SuspectsAgree(H, end, m)
  {
    var prev := ByPath(m.entries);
    ByPathDigests(m.entries);
    forall p | p in end.suspect && p in end.tree && FastPath(end.tree[p], p, prev, Some(m.capturedAt))
      ensures prev[p].sha256 == H(end.tree[p].content)
    {
      ScanFinds(H, end.tree, order, prev, Some(m.capturedAt), p);
      ScanFinds(H, end.tree, order, map[], None, p);
    }
  }

  lemma ScansAgree(H: Hash, end: World, m: Manifest, order: seq<Dirent>)
    requires Inv(H, end) && end.manifest == Some(m) && Lists(order, end.tree) && SuspectsAgree(H, end, m)
    ensures Scanned(H, order, ByPath(m.entries), Some(m.capturedAt)) == Scanned(H, order, map[], None)
  {
    var f, g := Scanner(H, ByPath(m.entries), Some(m.capturedAt)), Scanner(H, map[], None);
    ByPathDigests(m.entries);
    MappedAt(f, order);
    MappedAt(g, order);
    forall i | 0 <= i < |order| ensures f(order[i]) == g(order[i]) {
      assert order[i] in order;
    }
    assert Mapped(f, order) == Mapped(g, order);
  }

  /** The scanned entry of one path. */
  lemma ScanFinds(H: Hash, tree: Tree, order: seq<Dirent>, prev: map<string, Entry>, cutoff: Option<int>, p: string)
    requires Lists(order, tree) && p in tree && forall q <- prev :: prev[q].path == q
    ensures var scan := ByPath(Scanned(H, order, prev, cutoff));
            p in scan && scan[p] == ScannedEntry(H, p, tree[p], prev, cutoff)
  {
    var f := Scanner(H, prev, cutoff);
    var scanned := Mapped(f, order);
    MappedAt(f, order);
    var i :| 0 <= i < |order| && order[i] == Dirent(p, tree[p]);
    SameElements(scanned, Sort(PathOrder, scanned));
    assert scanned[i] in scanned;
    ScanIsDistinct(H, tree, order, prev, cutoff);
    ByPathFinds(Sort(PathOrder, scanned), scanned[i]);
  }

  const A := "a"
  const B := "b"

  function TwoFiles(a: Bytes, b: Bytes): Tree { map[A := File(false, a, 0), B := File(false, b, 0)] }

  function TwoListed(a: Bytes, b: Bytes): seq<Dirent> { [Dirent(A, File(false, a, 0)), Dirent(B, File(false, b, 0))] }

  /** Two files of one size in one tick, a baseline, and a move of one onto the other. */
  function MoveRun(a: Bytes, b: Bytes): seq<Step> { [WalkTree(TwoListed(a, b)), Capture, Move(A, B)] }

  lemma AfterMove(H: Hash, a: Bytes, b: Bytes)
    ensures Run(H, World(1, TwoFiles(a, b), None, {}, None), MoveRun(a, b)) ==
            World(1, map[B := File(false, a, 0)], Some(Manifest(1, Scanned(H, TwoListed(a, b), map[], None))), {B},
                  None)
  {
    var w, steps := World(1, TwoFiles(a, b), None, {}, None), MoveRun(a, b);
    var entries := Scanned(H, TwoListed(a, b), map[], None);
    assert steps[..2][..1] == steps[..1] && steps[..1][..0] == [];
    assert Run(H, w, steps[..1]) == w.(walk := Some(Walk(entries, {})));
    assert Run(H, w, steps[..2]) == World(1, TwoFiles(a, b), Some(Manifest(1, entries)), {}, None);
    assert (TwoFiles(a, b) - {A})[B := File(false, a, 0)] == map[B := File(false, a, 0)];
    assert {} - {A} + {B} == {B};
  }

  /** The scan of a single file `p` of content `now` against a record of its content `was` in an earlier tick. */
  lemma OldDigestIsReported(H: Hash, was: Bytes, now: Bytes, p: string, entries: seq<Entry>)
    requires |was| == |now| && H(was) != H(now)
    requires p in ByPath(entries) && ByPath(entries)[p] == HashedEntry(H, p, File(false, was, 0))
    ensures var here := [Dirent(p, File(false, now, 0))];
            && Lists(here, map[p := File(false, now, 0)])
            && Scanned(H, here, ByPath(entries), Some(1)) != Scanned(H, here, map[], None)
  {
    var tree, here := map[p := File(false, now, 0)], [Dirent(p, File(false, now, 0))];
    assert here[0] == Dirent(p, tree[p]);
    ByPathDigests(entries);
    ScanFinds(H, tree, here, ByPath(entries), Some(1), p);
    ScanFinds(H, tree, here, map[], None, p);
  }

  /** Moves are needed in the condition: the scan reports the old digest of the target. */
  lemma MoveDefeatsFastPath(H: Hash, a: Bytes, b: Bytes)
    requires |a| == |b| && H(a) != H(b)
    ensures var end := Run(H, World(1, TwoFiles(a, b), None, {}, None), MoveRun(a, b));
            var here := [Dirent(B, File(false, a, 0))];
            && Lists(here, end.tree) && end.manifest.Some?
            && var m := end.manifest.value;
            Scanned(H, here, ByPath(m.entries), Some(m.capturedAt)) != Scanned(H, here, map[], None)
  {
    AfterMove(H, a, b);
    var listed := TwoListed(a, b);
    assert listed[0] == Dirent(A, File(false, a, 0)) && listed[1] == Dirent(B, File(false, b, 0));
    BaselineRecords(H, TwoFiles(a, b), listed, B);
    OldDigestIsReported(H, b, a, B, Scanned(H, listed, map[], None));
  }

  /** A baseline, and a restore of other content with the recorded size and time. */
  function RestoreRun(a: Bytes, b: Bytes): seq<Step> {
    [WalkTree([Dirent(A, File(false, a, 0))]), Capture, Restore(A, false, b, 0)]
  }

  /** Restores are needed in the condition: the scan reports the old digest. */
  lemma RestoreDefeatsFastPath(H: Hash, a: Bytes, b: Bytes)
    requires |a| == |b| && H(a) != H(b)
    ensures var end := Run(H, World(1, map[A := File(false, a, 0)], None, {}, None), RestoreRun(a, b));
            var here := [Dirent(A, File(false, b, 0))];
            && Lists(here, end.tree) && end.manifest.Some?
            && var m := end.manifest.value;
            Scanned(H, here, ByPath(m.entries), Some(m.capturedAt)) != Scanned(H, here, map[], None)
  {
    var listed := [Dirent(A, File(false, a, 0))];
    AfterRestore(H, a, b);
    assert listed[0] == Dirent(A, File(false, a, 0));
    BaselineRecords(H, map[A := File(false, a, 0)], listed, A);
    OldDigestIsReported(H, a, b, A, Scanned(H, listed, map[], None));
  }

  lemma AfterRestore(H: Hash, a: Bytes, b: Bytes)
    ensures Run(H, World(1, map[A := File(false, a, 0)], None, {}, None), RestoreRun(a, b)) ==
            World(1, map[A := File(false, b, 0)],
                  Some(Manifest(1, Scanned(H, [Dirent(A, File(false, a, 0))], map[], None))), {A}, None)
  {
    var tree, listed := map[A := File(false, a, 0)], [Dirent(A, File(false, a, 0))];
    var w, steps, entries := World(1, tree, None, {}, None), RestoreRun(a, b), Scanned(H, listed, map[], None);
    assert steps[..2][..1] == steps[..1] && steps[..1][..0] == [];
    assert Run(H, w, steps[..1]) == w.(walk := Some(Walk(entries, {})));
    assert Run(H, w, steps[..2]) == World(1, tree, Some(Manifest(1, entries)), {}, None);
    assert tree[A := File(false, b, 0)] == map[A := File(false, b, 0)] && {} + {A} == {A};
  }

  /** A file is hashed, rewritten at the same size in the same tick, and the manifest is captured one tick later. */
  function RacyRun(a: Bytes, b: Bytes): seq<Step> {
    [WalkTree([Dirent(A, File(false, a, 0))]), Write(A, false, b), Tick(1), Capture]
  }

  lemma AfterRacyRun(H: Hash, a: Bytes, b: Bytes)
    requires |a| == |b|
    ensures var entries := Scanned(H, [Dirent(A, File(false, a, 0))], map[], None);
            && Run(H, World(0, map[A := File(false, a, 0)], None, {}, None), RacyRun(a, b)) ==
               World(1, map[A := File(false, b, 0)], Some(Manifest(1, entries)), {A}, None)
            && A in ByPath(entries) && ByPath(entries)[A] == HashedEntry(H, A, File(false, a, 0))
  {
    var tree, listed := map[A := File(false, a, 0)], [Dirent(A, File(false, a, 0))];
    var w, steps := World(0, tree, None, {}, None), RacyRun(a, b);
    var entries := Scanned(H, listed, map[], None);
    assert listed[0] == Dirent(A, tree[A]);
    BaselineRecords(H, tree, listed, A);
    assert steps[..3][..2] == steps[..2] && steps[..2][..1] == steps[..1] && steps[..1][..0] == [];
    assert Run(H, w, steps[..1]) == w.(walk := Some(Walk(entries, {})));
    assert Races(Run(H, w, steps[..1]), steps[1]);
    var rewritten := map[A := File(false, b, 0)];
    assert tree[A := File(false, b, 0)] == rewritten && {} + {A} == {A};
    assert Run(H, w, steps[..2]) == World(0, rewritten, None, {}, Some(Walk(entries, {A})));
    assert Run(H, w, steps[..3]) == World(1, rewritten, None, {}, Some(Walk(entries, {A})));
  }

  /** Rewrites during the baseline are needed in the condition: this same-size edit in the recorded tick is missed. */
  lemma RacyBaselineDefeatsFastPath(H: Hash, a: Bytes, b: Bytes)
    requires |a| == |b| && H(a) != H(b)
    ensures var end := Run(H, World(0, map[A := File(false, a, 0)], None, {}, None), RacyRun(a, b));
            var here := [Dirent(A, File(false, b, 0))];
            && Lists(here, end.tree) && end.manifest.Some?
            && var m := end.manifest.value;
            Scanned(H, here, ByPath(m.entries), Some(m.capturedAt)) != Scanned(H, here, map[], None)
  {
    AfterRacyRun(H, a, b);
    OldDigestIsReported(H, a, b, A, Scanned(H, [Dirent(A, File(false, a, 0))], map[], None));
  }
}

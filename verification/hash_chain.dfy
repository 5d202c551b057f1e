/** The hash chain of the audit table, over an arbitrary row digest: linking, the first broken row, and
    what a verified trail proves. What the digest contributes appears as evidence of a collision or of a
    preimage of the genesis value, never as an assumption. */
module HashChain {
  import opened Wrappers
  import opened JsonText

  datatype Content = Content(
    timestamp: Text, actorType: Text, actorId: Text, tokenId: Option<Text>, action: Text,
    resourceType: Text, resourceId: Option<Text>, requestId: Option<Text>, metadata: Option<Text>)

  /** One stored row. The two hashes are NULL in a row inserted around the repository. */
  datatype Row = Row(id: nat, content: Content, prevHash: Option<Text>, rowHash: Option<Text>)

  /** The digest of a row from its content and its predecessor's digest. */
  type Digest = (Content, Text) -> Text

  function Zeros(n: nat): Text { seq(n, _ => 0x30) }

  const GENESIS: Text := Zeros(64)

  /** The digest that row `k` must name as its predecessor, and that a row appended after the first `k`
      rows will name. */
  function HashBefore(rows: seq<Row>, k: nat): Text
    requires k <= |rows|
  {
    if k == 0 then GENESIS
    else match rows[k - 1].rowHash case Some(h) => h case None => GENESIS
  }

  function TailHash(rows: seq<Row>): Text { HashBefore(rows, |rows|) }

  predicate Linked(D: Digest, rows: seq<Row>, i: nat)
    requires i < |rows|
  {
    rows[i].prevHash == Some(HashBefore(rows, i)) && rows[i].rowHash == Some(D(rows[i].content, HashBefore(rows, i)))
  }

  /** The first `k` rows commit to their predecessors and to their own content. */
  predicate IntactUpTo(D: Digest, rows: seq<Row>, k: nat)
    requires k <= |rows|
  {
    forall i :: 0 <= i < k ==> Linked(D, rows, i)
  }

  predicate Intact(D: Digest, rows: seq<Row>) { IntactUpTo(D, rows, |rows|) }

  /** `i` is the first row that does not verify. */
  predicate FirstBroken(D: Digest, rows: seq<Row>, i: nat) {
    i < |rows| && IntactUpTo(D, rows, i) && !Linked(D, rows, i)
  }

  /** What an undetected forgery would amount to. */
  datatype Evidence =
    | Nothing
    | Collision(c: Content, p: Text, c': Content, p': Text)
    | GenesisPreimage(c: Content, p: Text)

  predicate Holds(D: Digest, e: Evidence) {
    match e
    case Nothing => true
    case Collision(c, p, c', p') => (c, p) != (c', p') && D(c, p) == D(c', p')
    case GenesisPreimage(c, p) => D(c, p) == GENESIS
  }

  /** Same content and same hashes in the first `k` rows; only the ids may differ, as they are not hashed. */
  predicate SameHistory(a: seq<Row>, b: seq<Row>, k: nat)
    requires k <= |a| && k <= |b|
  {
    forall i :: 0 <= i < k ==>
      a[i].content == b[i].content && a[i].prevHash == b[i].prevHash && a[i].rowHash == b[i].rowHash
  }

  /** Two verified prefixes that end in the same digest have the same length and the same rows. */
  lemma {:induction false} DigestPinsPrefix(D: Digest, a: seq<Row>, i: nat, b: seq<Row>, j: nat) returns (e: Evidence)
    requires i <= |a| && j <= |b| && IntactUpTo(D, a, i) && IntactUpTo(D, b, j)
    requires HashBefore(a, i) == HashBefore(b, j)
    ensures Holds(D, e)
    ensures e.Nothing? ==> i == j && SameHistory(a, b, i)
    decreases i
  {
    if i == 0 && j == 0 {
      e := Nothing;
    } else if i == 0 {
      assert Linked(D, b, j - 1);
      e := GenesisPreimage(b[j - 1].content, HashBefore(b, j - 1));
    } else if j == 0 {
      assert Linked(D, a, i - 1);
      e := GenesisPreimage(a[i - 1].content, HashBefore(a, i - 1));
    } else {
      assert Linked(D, a, i - 1) && Linked(D, b, j - 1);
      var p, q := HashBefore(a, i - 1), HashBefore(b, j - 1);
      if (a[i - 1].content, p) != (b[j - 1].content, q) {
        e := Collision(a[i - 1].content, p, b[j - 1].content, q);
      } else {
        e := DigestPinsPrefix(D, a, i - 1, b, j - 1);
      }
    }
  }

  /** The tail hash pins the whole history: two verified trails that end in the same digest are the same
      trail, or here is the evidence. */
  lemma TailPinsHistory(D: Digest, a: seq<Row>, b: seq<Row>) returns (e: Evidence)
    requires Intact(D, a) && Intact(D, b) && TailHash(a) == TailHash(b)
    ensures Holds(D, e)
    ensures e.Nothing? ==> |a| == |b| && SameHistory(a, b, |a|)
  {
    e := DigestPinsPrefix(D, a, |a|, b, |b|);
  }

  /** The trail made of the rows `p[0], p[1], ...` of `rows`: any deletion, reordering or repetition. */
  function Pick(rows: seq<Row>, p: seq<nat>): seq<Row>
    requires forall i :: 0 <= i < |p| ==> p[i] < |rows|
  {
    seq(|p|, i requires 0 <= i < |p| => rows[p[i]])
  }

  predicate InPlace(p: seq<nat>, k: nat)
    requires k <= |p|
  {
    forall i :: 0 <= i < k ==> p[i] == i
  }

  /** A survivor directly after rows that are in place verifies only if it is in place too. */
  lemma SurvivorLinks(D: Digest, rows: seq<Row>, p: seq<nat>, n: nat) returns (e: Evidence)
    requires Intact(D, rows) && forall i :: 0 <= i < |p| ==> p[i] < |rows|
    requires n < |p| && InPlace(p, n)
    ensures Holds(D, e)
    ensures e.Nothing? ==> (Linked(D, Pick(rows, p), n) <==> p[n] == n)
  {
    var survivors := Pick(rows, p);
    assert n > 0 ==> p[n - 1] == n - 1 && survivors[n - 1] == rows[n - 1];
    assert HashBefore(survivors, n) == HashBefore(rows, n);
    assert Linked(D, rows, p[n]);
    if p[n] != n && HashBefore(rows, p[n]) == HashBefore(rows, n) {
      e := DigestPinsPrefix(D, rows, p[n], rows, n);
    } else {
      e := Nothing;
    }
  }

  /** Deleting, reordering or repeating rows of a verified trail is caught at exactly the first displaced
      row. What goes unnoticed is only what keeps every remaining row in place: a truncated tail. */
  lemma {:induction false} DisplacementIsCaught(D: Digest, rows: seq<Row>, p: seq<nat>, k: nat) returns (e: Evidence)
    requires Intact(D, rows) && (forall i :: 0 <= i < |p| ==> p[i] < |rows|) && k <= |p|
    ensures Holds(D, e)
    ensures e.Nothing? ==> (IntactUpTo(D, Pick(rows, p), k) <==> InPlace(p, k))
    ensures e.Nothing? ==> forall j: nat :: j < k ==>
                             (FirstBroken(D, Pick(rows, p), j) <==> InPlace(p, j) && p[j] != j)
  {
    e := Nothing;
    if k > 0 {
      e := DisplacementIsCaught(D, rows, p, k - 1);
      if e.Nothing? && InPlace(p, k - 1) {
        e := SurvivorLinks(D, rows, p, k - 1);
      }
    }
  }

  /** Rewriting the content of a row is caught at that row, or, when the forger recomputed its digest, at
      the next one; only a re-signed last row escapes. */
  lemma EditIsCaught(D: Digest, rows: seq<Row>, i: nat, forged: Row) returns (e: Evidence)
    requires Intact(D, rows) && i < |rows| && forged.content != rows[i].content
    ensures Holds(D, e)
    ensures e.Nothing? ==>
              var edited := rows[i := forged];
              if !Linked(D, edited, i) then FirstBroken(D, edited, i)
              else if i + 1 < |rows| then FirstBroken(D, edited, i + 1)
              else Intact(D, edited)
  {
    var edited := rows[i := forged];
    forall j | 0 <= j < i ensures Linked(D, edited, j) { assert Linked(D, rows, j); }
    e := Nothing;
    if Linked(D, edited, i) && i + 1 < |rows| {
      assert Linked(D, rows, i) && Linked(D, rows, i + 1);
      var p := HashBefore(rows, i);
      if D(rows[i].content, p) == D(forged.content, p) {
        e := Collision(rows[i].content, p, forged.content, p);
      }
    }
  }
}

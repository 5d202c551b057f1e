/** The audit repository: the canonical payload that is hashed, `append` and `verifyChain`. */
module AuditTrail {
  import opened Wrappers
  import opened JsonText
  import opened HashChain

  const DOMAIN: Text := Ascii("wft.audit_events.hash-chain.v1")

  function Fields(c: Content, prevHash: Text): seq<Option<Text>> {
    [Some(DOMAIN), Some(prevHash), Some(c.timestamp), Some(c.actorType), Some(c.actorId), c.tokenId,
     Some(c.action), Some(c.resourceType), c.resourceId, c.requestId, c.metadata]
  }

  function CanonicalPayload(c: Content, prevHash: Text): Text {
    Stringify(Fields(c, prevHash))
  }

  /** Payloads are equal exactly when the previous hash and the value in every column are. */
  lemma PayloadIsInjective(c: Content, prevHash: Text, c': Content, prevHash': Text)
    ensures CanonicalPayload(c, prevHash) == CanonicalPayload(c', prevHash') <==> c == c' && prevHash == prevHash'
  {
    if CanonicalPayload(c, prevHash) == CanonicalPayload(c', prevHash') {
      StringifyReadsBack(Fields(c, prevHash));
      StringifyReadsBack(Fields(c', prevHash'));
      FieldsAreColumns(c, prevHash, c', prevHash');
    }
  }

  /** What is hashed, told by reading it back: an array that starts with the domain tag and the previous hash,
      followed by the nine columns in this order. */
  lemma PayloadReads(c: Content, prevHash: Text)
    ensures ReadArray(CanonicalPayload(c, prevHash)) ==
            Some([Some(DOMAIN), Some(prevHash), Some(c.timestamp), Some(c.actorType), Some(c.actorId), c.tokenId,
                  Some(c.action), Some(c.resourceType), c.resourceId, c.requestId, c.metadata])
    ensures DOMAIN == Ascii("wft.audit_events.hash-chain.v1")
  {
    StringifyReadsBack(Fields(c, prevHash));
  }

  lemma FieldsAreColumns(c: Content, prevHash: Text, c': Content, prevHash': Text)
    requires Fields(c, prevHash) == Fields(c', prevHash')
    ensures c == c' && prevHash == prevHash'
  {
    var f, f' := Fields(c, prevHash), Fields(c', prevHash');
    assert f[1] == f'[1] && f[2] == f'[2] && f[3] == f'[3] && f[4] == f'[4] && f[5] == f'[5];
    assert f[6] == f'[6] && f[7] == f'[7] && f[8] == f'[8] && f[9] == f'[9] && f[10] == f'[10];
  }

  /** The row digest made from a text hash `H`; the program uses SHA-256 in hex. */
  function RowDigest(H: Text -> Text): Digest {
    (c: Content, prevHash: Text) => H(CanonicalPayload(c, prevHash))
  }

  /** Evidence about rows is evidence about the text hash itself: two different texts with one hash, or a
      text that hashes to the genesis value. */
  lemma EvidenceBreaksHash(H: Text -> Text, e: Evidence)
    requires Holds(RowDigest(H), e)
    ensures e.Collision? ==> CanonicalPayload(e.c, e.p) != CanonicalPayload(e.c', e.p')
                             && H(CanonicalPayload(e.c, e.p)) == H(CanonicalPayload(e.c', e.p'))
    ensures e.GenesisPreimage? ==> H(CanonicalPayload(e.c, e.p)) == GENESIS
  {
    if e.Collision? && CanonicalPayload(e.c, e.p) == CanonicalPayload(e.c', e.p') {
      PayloadIsInjective(e.c, e.p, e.c', e.p');
    }
  }

  class AuditEventRepository {
    const D: Digest
    var rows: seq<Row>
    var nextId: nat

    constructor (H: Text -> Text)
      ensures D == RowDigest(H) && rows == [] && Intact(D, rows)
    {
      D, rows, nextId := RowDigest(H), [], 1;
    }

    /** Appends one linked row; `content` carries the clock value the row will store. */
    method Append(content: Content) returns (id: nat)
      modifies this`rows, this`nextId
      ensures id == old(nextId) && nextId == id + 1
      ensures var prevHash := if old(rows) == [] then seq(64, _ => '0' as int) else TailHash(old(rows));
              rows == old(rows) + [Row(id, content, Some(prevHash), Some(D(content, prevHash)))]
      ensures Linked(D, rows, |old(rows)|)
      ensures Intact(D, rows) <==> Intact(D, old(rows))
    {
      var prevHash := TailHash(rows);
      id := nextId;
      rows := rows + [Row(id, content, Some(prevHash), Some(D(content, prevHash)))];
      nextId := nextId + 1;
      forall i | 0 <= i < |old(rows)| ensures Linked(D, rows, i) <==> Linked(D, old(rows), i) {
        assert rows[i] == old(rows)[i];
      }
    }

    /** Walks the trail; returns the id of the first row that does not verify. */
    method VerifyChain() returns (broken: Option<nat>)
      ensures broken.None? <==> Intact(D, rows)
      ensures broken.Some? ==> exists i: nat :: FirstBroken(D, rows, i) && broken.value == rows[i].id
    {
      var expectedPrevHash := GENESIS;
      for i := 0 to |rows|
        invariant IntactUpTo(D, rows, i) && expectedPrevHash == HashBefore(rows, i)
      {
        var row := rows[i];
        if row.prevHash != Some(expectedPrevHash) {
          assert FirstBroken(D, rows, i);
          return Some(row.id);
        }
        if row.rowHash != Some(D(row.content, expectedPrevHash)) {
          assert FirstBroken(D, rows, i);
          return Some(row.id);
        }
        expectedPrevHash := row.rowHash.value;
      }
      broken := None;
    }
  }
}

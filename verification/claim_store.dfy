/** The claim protocol on task rows: compare-and-set claim, same-holder renewal, and release of stale
    claims. Every SQL statement is one atomic step; times are whole seconds. */
module ClaimStore {
  import opened Wrappers

  datatype Status = Open | InProgress | Done | Closed | Blocked | Backlogged

  datatype Row = Row(status: Status, assignee: Option<string>, version: nat, claimedAt: Option<int>,
                     updatedAt: int, completedAt: Option<int>)

  type Table = map<int, Row>

  // --- the statements, on one row -------------------------------------------------------------------

  predicate Claimable(r: Row) { r.assignee.None? && r.status.Open? }

  function ClaimRow(r: Row, agent: string, now: int): Row {
    r.(assignee := Some(agent), status := InProgress, version := r.version + 1,
       claimedAt := Some(now), updatedAt := now)
  }

  predicate Renewable(r: Row, agent: string) { r.assignee == Some(agent) && r.status.InProgress? }

  function RenewRow(r: Row, now: int): Row {
    r.(claimedAt := Some(now), updatedAt := now, version := r.version + 1)
  }

  predicate Releasable(r: Row) { r.assignee.Some? && r.status.InProgress? }

  function ReleaseRow(r: Row, now: int): Row {
    r.(assignee := None, status := Open, claimedAt := None, version := r.version + 1, updatedAt := now)
  }

  /** No activity for `ttl` seconds: neither a claim or renewal nor any update. */
  predicate Stale(r: Row, now: int, ttl: int) {
    Releasable(r) && r.claimedAt.Some? && r.claimedAt.value <= now - ttl && r.updatedAt <= now - ttl
  }

  /** The status, assignee and completion part of an update. An absent field is left alone; `Some(None)`
      clears the assignee. The version is not touched. */
  function UpdateRow(r: Row, status: Option<Status>, assignee: Option<Option<string>>, now: int): Row {
    var completedAt :=
      if status.None? then r.completedAt
      else if status.value.Done? && !r.status.Done? then Some(now)
      else if !status.value.Done? && r.status.Done? then None
      else r.completedAt;
    r.(status := status.GetOr(r.status), assignee := assignee.GetOr(r.assignee),
       completedAt := completedAt, updatedAt := now)
  }

  /** What an update does, told by the columns: the completion time is the moment of the last move into done. */
  predicate Updated(before: Row, after: Row, status: Option<Status>, assignee: Option<Option<string>>, now: int) {
    && (status.Some? ==> after.status == status.value) && (status.None? ==> after.status == before.status)
    && (assignee.Some? ==> after.assignee == assignee.value) && (assignee.None? ==> after.assignee == before.assignee)
    && (after.status.Done? && !before.status.Done? ==> after.completedAt == Some(now))
    && (!after.status.Done? && before.status.Done? ==> after.completedAt == None)
    && (after.status.Done? == before.status.Done? ==> after.completedAt == before.completedAt)
    && after.version == before.version && after.claimedAt == before.claimedAt && after.updatedAt == now
  }

  function CreateRow(status: Status, assignee: Option<string>, now: int): Row {
    Row(status, assignee, 1, None, now, None)
  }

  /** No task but `id` has changed. */
  predicate OthersUntouched(before: Table, after: Table, id: int) {
    && after.Keys == before.Keys
    && forall other <- before :: other != id ==> after[other] == before[other]
  }

  // --- the store ------------------------------------------------------------------------------------

  datatype StaleClaim = StaleClaim(id: int, assignee: string, claimedAt: int)

  function StaleIds(rows: Table, now: int, ttl: int): set<int> {
    set id <- rows | Stale(rows[id], now, ttl)
  }

  function ClaimOf(rows: Table, id: int): StaleClaim
    requires id in rows && Releasable(rows[id]) && rows[id].claimedAt.Some?
  {
    StaleClaim(id, rows[id].assignee.value, rows[id].claimedAt.value)
  }

  /** The rows after every stale claim was released at once. */
  function Swept(rows: Table, now: int, ttl: int): Table {
    map id <- rows :: if Stale(rows[id], now, ttl) then ReleaseRow(rows[id], now) else rows[id]
  }

  /** `found` names the claims of `ids`, each once. */
  ghost predicate Names(rows: Table, ids: set<int>, found: seq<StaleClaim>) {
    && |found| == |ids|
    && (forall i :: 0 <= i < |found| ==> found[i].id in ids)
    && (forall i :: 0 <= i < |found| ==>
                      && found[i].id in rows && Releasable(rows[found[i].id]) && rows[found[i].id].claimedAt.Some?
                      && found[i] == ClaimOf(rows, found[i].id))
    && (forall i, j :: 0 <= i < j < |found| ==> found[i].id != found[j].id)
    && (forall id <- ids :: exists i :: 0 <= i < |found| && found[i].id == id)
  }

  /** Claimed and neither claimed, renewed nor updated for the last `ttl` seconds, told by the columns. */
  predicate IsStale(r: Row, now: int, ttl: int) {
    && r.status == InProgress && r.assignee != None && r.claimedAt != None
    && now - r.claimedAt.value >= ttl && now - r.updatedAt >= ttl
  }

  /** Every stale row lost its holder and went back to open, one version on; no other row changed. */
  ghost predicate StaleReleased(before: Table, after: Table, now: int, ttl: int) {
    && after.Keys == before.Keys
    && (forall id <- before :: !IsStale(before[id], now, ttl) ==> after[id] == before[id])
    && (forall id <- before :: IsStale(before[id], now, ttl) ==>
          after[id] == Row(Open, None, before[id].version + 1, None, now, before[id].completedAt))
  }

  lemma SweptIsReleased(rows: Table, now: int, ttl: int)
    ensures StaleReleased(rows, Swept(rows, now, ttl), now, ttl)
  {
  }

  /** Every stale row is found once, with the holder and the claim time it carries. */
  ghost predicate FindsStale(rows: Table, found: seq<StaleClaim>, now: int, ttl: int) {
    && (forall i :: 0 <= i < |found| ==>
                      && found[i].id in rows && IsStale(rows[found[i].id], now, ttl)
                      && rows[found[i].id].assignee == Some(found[i].assignee)
                      && rows[found[i].id].claimedAt == Some(found[i].claimedAt))
    && (forall i, j :: 0 <= i < j < |found| ==> found[i].id != found[j].id)
    && (forall id <- rows :: IsStale(rows[id], now, ttl) ==> exists i :: 0 <= i < |found| && found[i].id == id)
  }

  lemma NamedAreStale(rows: Table, found: seq<StaleClaim>, now: int, ttl: int)
    requires Names(rows, StaleIds(rows, now, ttl), found)
    ensures FindsStale(rows, found, now, ttl)
  {
    forall id | id in rows && IsStale(rows[id], now, ttl) ensures exists i :: 0 <= i < |found| && found[i].id == id {
      assert id in StaleIds(rows, now, ttl);
    }
  }

  /** The events of a sweep: `task.updated` and `task.claim_released`, each with the row after the release. */
  datatype ClaimEvent = TaskUpdated(id: int, row: Row) | ClaimReleased(claim: StaleClaim, row: Row)

  predicate Known(rows: Table, found: seq<StaleClaim>) {
    forall i :: 0 <= i < |found| ==> found[i].id in rows
  }

  /** Both events for every released claim, in the order in which the claims were found. */
  function Announced(rows: Table, found: seq<StaleClaim>, now: int): seq<ClaimEvent>
    requires Known(rows, found)
  {
    if found == [] then []
    else
      var claim := found[|found| - 1];
      var row := ReleaseRow(rows[claim.id], now);
      Announced(rows, found[..|found| - 1], now) + [TaskUpdated(claim.id, row), ClaimReleased(claim, row)]
  }

  lemma AnnouncedNext(rows: Table, found: seq<StaleClaim>, now: int, i: nat)
    requires Known(rows, found) && i < |found|
    ensures var row := ReleaseRow(rows[found[i].id], now);
            Announced(rows, found[..i + 1], now) ==
            Announced(rows, found[..i], now) + [TaskUpdated(found[i].id, row), ClaimReleased(found[i], row)]
  {
    assert found[..i + 1][..i] == found[..i];
  }

  /** From position `from` on there are two events for each found claim, in order: the update, then the release
      with the former holder and claim time. */
  predicate TellsReleases(events: seq<ClaimEvent>, from: nat, rows: Table, found: seq<StaleClaim>) {
    && |events| == from + 2 * |found|
    && forall i :: 0 <= i < |found| ==>
                     && found[i].id in rows
                     && events[from + 2 * i] == TaskUpdated(found[i].id, rows[found[i].id])
                     && events[from + 2 * i + 1] == ClaimReleased(found[i], rows[found[i].id])
  }

  lemma {:induction false} AnnouncedTells(earlier: seq<ClaimEvent>, before: Table, after: Table,
                                          found: seq<StaleClaim>, now: int)
    requires Known(before, found) && Known(after, found)
    requires forall i :: 0 <= i < |found| ==> after[found[i].id] == ReleaseRow(before[found[i].id], now)
    ensures TellsReleases(earlier + Announced(before, found, now), |earlier|, after, found)
  {
    if found != [] {
      AnnouncedTells(earlier, before, after, found[..|found| - 1], now);
    }
  }

  /** The first `i` of the found claims are released, and nothing else has changed. */
  ghost predicate ReleasedUpTo(before: Table, rows: Table, found: seq<StaleClaim>, i: nat, now: int) {
    && i <= |found| && rows.Keys == before.Keys
    && (forall j :: 0 <= j < i ==> found[j].id in rows && rows[found[j].id] == ReleaseRow(before[found[j].id], now))
    && (forall id <- rows :: (forall j :: 0 <= j < i ==> found[j].id != id) ==> rows[id] == before[id])
  }

  lemma ReleaseNext(before: Table, rows: Table, found: seq<StaleClaim>, i: nat, now: int)
    requires ReleasedUpTo(before, rows, found, i, now) && i < |found|
    requires found[i].id in before && forall j, k :: 0 <= j < k < |found| ==> found[j].id != found[k].id
    ensures rows[found[i].id] == before[found[i].id]
    ensures ReleasedUpTo(before, rows[found[i].id := ReleaseRow(before[found[i].id], now)], found, i + 1, now)
  {
  }

  class TaskStore {
    var rows: Table
    var now: int
    const ttl: int
    /** The events emitted so far. */
    var events: seq<ClaimEvent>

    constructor (rows: Table, now: int, timeoutMinutes: int)
      ensures this.rows == rows && this.now == now && ttl == 60 * timeoutMinutes && events == []
    {
      this.rows, this.now, ttl, events := rows, now, 60 * timeoutMinutes, [];
    }

    /** Fails for an id already taken; the first version is 1 and nothing is claimed or completed. */
    method Create(id: int, status: Status, assignee: Option<string>) returns (ok: bool)
      modifies this`rows
      ensures ok <==> id !in old(rows)
      ensures rows == if ok then old(rows)[id := Row(status, assignee, 1, None, now, None)] else old(rows)
    {
      ok := id !in rows;
      if ok {
        rows := rows[id := Row(status, assignee, 1, None, now, None)];
      }
    }

    /** Succeeds exactly when the task is open and nobody holds it; the version read in the same transaction
        always matches. */
    method ClaimTask(id: int, agent: string) returns (ok: bool)
      modifies this`rows
      ensures ok <==> id in old(rows) && old(rows)[id].assignee.None? && old(rows)[id].status.Open?
      ensures ok ==> var r := old(rows)[id];
                     rows == old(rows)[id := Row(InProgress, Some(agent), r.version + 1, Some(now), now, r.completedAt)]
      ensures !ok ==> rows == old(rows)
      ensures OthersUntouched(old(rows), rows, id)
    {
      if id !in rows {
        return false;
      }
      var version := rows[id].version;
      if rows[id].assignee.None? && rows[id].status.Open? && rows[id].version == version {
        rows := rows[id := rows[id].(assignee := Some(agent), status := InProgress, version := rows[id].version + 1,
                                     claimedAt := Some(now), updatedAt := now)];
        return true;
      }
      ok := false;
    }

    /** Only the current holder of an in-progress claim can renew it. */
    method RenewClaim(id: int, agent: string) returns (ok: bool)
      modifies this`rows
      ensures ok <==> id in old(rows) && old(rows)[id].assignee == Some(agent) && old(rows)[id].status.InProgress?
      ensures ok ==> var r := old(rows)[id];
                     rows == old(rows)[id := Row(InProgress, Some(agent), r.version + 1, Some(now), now, r.completedAt)]
      ensures !ok ==> rows == old(rows)
      ensures ok ==> forall ttl :: ttl > 0 ==> !Stale(rows[id], now, ttl)
      ensures OthersUntouched(old(rows), rows, id)
    {
      ok := id in rows && rows[id].assignee == Some(agent) && rows[id].status.InProgress?;
      if ok {
        rows := rows[id := rows[id].(claimedAt := Some(now), updatedAt := now, version := rows[id].version + 1)];
      }
    }

    method FindStaleClaims() returns (found: seq<StaleClaim>)
      ensures FindsStale(rows, found, now, ttl)
      ensures Names(rows, StaleIds(rows, now, ttl), found)
    {
      found := [];
      ghost var seen: set<int> := {};
      var pending := StaleIds(rows, now, ttl);
      while exists id :: id in pending
        invariant pending <= StaleIds(rows, now, ttl)
        invariant seen == StaleIds(rows, now, ttl) - pending
        invariant Names(rows, seen, found)
        decreases pending
      {
        var id :| id in pending;
        pending := pending - {id};
        ghost var before := found;
        found := found + [StaleClaim(id, rows[id].assignee.value, rows[id].claimedAt.value)];
        NamesOneMore(rows, seen, before, id);
        seen := seen + {id};
        assert seen == StaleIds(rows, now, ttl) - pending;
      }
      assert seen == StaleIds(rows, now, ttl);
      NamedAreStale(rows, found, now, ttl);
    }

    /** Releases whatever claim the task carries now: staleness is not checked again. */
    method ReleaseClaim(id: int) returns (ok: bool)
      modifies this`rows
      ensures ok <==> id in old(rows) && old(rows)[id].assignee.Some? && old(rows)[id].status.InProgress?
      ensures ok ==> var r := old(rows)[id];
                     rows == old(rows)[id := Row(Open, None, r.version + 1, None, now, r.completedAt)]
      ensures !ok ==> rows == old(rows)
      ensures id in rows ==> !Releasable(rows[id])
      ensures OthersUntouched(old(rows), rows, id)
    {
      ok := id in rows && rows[id].assignee.Some? && rows[id].status.InProgress?;
      if ok {
        rows := rows[id := rows[id].(assignee := None, status := Open, claimedAt := None,
                                     version := rows[id].version + 1, updatedAt := now)];
      }
    }

    /** One sweep with nothing in between: every stale claim is released, and for each of them the update and
        the release, with its former holder, are announced; afterwards no claim is stale. */
    method Sweep() returns (count: nat, ghost found: seq<StaleClaim>)
      modifies this`rows, this`events
      ensures FindsStale(old(rows), found, now, ttl) && count == |found|
      ensures StaleReleased(old(rows), rows, now, ttl)
      ensures TellsReleases(events, |old(events)|, rows, found) && events[..|old(events)|] == old(events)
      ensures rows == Swept(old(rows), now, ttl) && StaleIds(rows, now, ttl) == {}
    {
      var stale := FindStaleClaims();
      found, count := stale, 0;
      for i := 0 to |stale|
        invariant count == i && events == old(events) + Announced(old(rows), stale[..i], now)
        invariant ReleasedUpTo(old(rows), rows, stale, i, now)
      {
        ReleaseNext(old(rows), rows, stale, i, now);
        var ok := ReleaseClaim(stale[i].id);
        assert ok;
        if ok {
          AnnouncedNext(old(rows), stale, now, i);
          events := events + [TaskUpdated(stale[i].id, rows[stale[i].id])];
          events := events + [ClaimReleased(stale[i], rows[stale[i].id])];
          count := count + 1;
        }
      }
      assert stale[..|stale|] == stale;
      AllReleased(old(rows), rows, stale, now, ttl);
      SweptIsReleased(old(rows), now, ttl);
      AnnouncedTells(old(events), old(rows), rows, stale, now);
    }

    /** Fails for an unknown task. */
    method Update(id: int, status: Option<Status>, assignee: Option<Option<string>>) returns (ok: bool)
      modifies this`rows
      ensures ok <==> id in old(rows)
      ensures rows == if ok then old(rows)[id := UpdateRow(old(rows)[id], status, assignee, now)] else old(rows)
      ensures ok ==> Updated(old(rows)[id], rows[id], status, assignee, now)
    {
      if id !in rows {
        return false;
      }
      var row := rows[id];
      if status.Some? {
        var movingIntoDone := status.value == Done && row.status != Done;
        var movingOutOfDone := row.status == Done && status.value != Done;
        if movingIntoDone {
          row := row.(completedAt := Some(now));
        } else if movingOutOfDone {
          row := row.(completedAt := None);
        }
        row := row.(status := status.value);
      }
      if assignee.Some? {
        row := row.(assignee := assignee.value);
      }
      rows := rows[id := row.(updatedAt := now)];
      ok := true;
    }
  }

  /** Releasing the named claims and nothing else is a sweep, and leaves nothing stale. */
  lemma AllReleased(before: Table, after: Table, stale: seq<StaleClaim>, now: int, ttl: int)
    requires Names(before, StaleIds(before, now, ttl), stale) && ReleasedUpTo(before, after, stale, |stale|, now)
    ensures after == Swept(before, now, ttl) && StaleIds(after, now, ttl) == {}
  {
    forall id | id in after ensures after[id] == Swept(before, now, ttl)[id] {
      if Stale(before[id], now, ttl) {
        assert id in StaleIds(before, now, ttl);
        var j :| 0 <= j < |stale| && stale[j].id == id;
      } else {
        assert forall j :: 0 <= j < |stale| ==> stale[j].id in StaleIds(before, now, ttl);
      }
    }
    assert after == Swept(before, now, ttl);
    assert forall id: int :: id !in StaleIds(after, now, ttl);
    assert StaleIds(after, now, ttl) <= {};
  }

  lemma NamesOneMore(rows: Table, ids: set<int>, found: seq<StaleClaim>, id: int)
    requires Names(rows, ids, found) && id !in ids
    requires id in rows && Releasable(rows[id]) && rows[id].claimedAt.Some?
    ensures Names(rows, ids + {id}, found + [ClaimOf(rows, id)])
  {
    var more := found + [ClaimOf(rows, id)];
    forall x | x in ids + {id} ensures exists i :: 0 <= i < |more| && more[i].id == x {
      if x == id {
        assert more[|found|].id == x;
      } else {
        var i :| 0 <= i < |found| && found[i].id == x;
        assert more[i].id == x;
      }
    }
  }
}

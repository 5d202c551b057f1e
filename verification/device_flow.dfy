/** Device authorization (section 3 of RFC 8628): sessions keyed by device code, with a reverse index from
    user codes, both kept in memory and updated in place. */
module DeviceFlow {
  import opened Wrappers

  /** 10 minutes, in milliseconds. */
  const SESSION_TTL_MS := 600_000
  const MAX_TRIES := 32

  datatype Status = Pending | Approved | Denied

  datatype Minted = Minted(tokenId: int, token: string)

  // --- the value of the store, and every operation on it ----------------------------------------------

  datatype Record = Record(deviceCode: string, userCode: string, clientId: string, createdAt: int, expiresAt: int,
                           status: Status, approvedUserId: Option<int>, minted: Option<Minted>)

  datatype State = State(sessions: map<string, Record>, codes: map<string, string>)

  /** The first of the candidates numbered `k` to 32 that is not taken. */
  function FirstFree(taken: set<string>, candidate: nat -> string, k: nat): Option<string>
    decreases MAX_TRIES + 1 - k
  {
    if k > MAX_TRIES then None
    else if candidate(k) !in taken then Some(candidate(k))
    else FirstFree(taken, candidate, k + 1)
  }

  function NewRecord(deviceCode: string, userCode: string, clientId: string, now: int): Record {
    Record(deviceCode, userCode, clientId, now, now + SESSION_TTL_MS, Pending, None, None)
  }

  function Insert(s: State, deviceCode: string, userCode: string, clientId: string, now: int): State {
    State(s.sessions[deviceCode := NewRecord(deviceCode, userCode, clientId, now)], s.codes[userCode := deviceCode])
  }

  function Create(s: State, deviceCode: string, candidate: nat -> string, clientId: string, now: int): State {
    match FirstFree(s.codes.Keys, candidate, 0)
    case Some(userCode) => Insert(s, deviceCode, userCode, clientId, now)
    case None => s
  }

  function Resolve(s: State, userCode: string): Option<Record> {
    if userCode in s.codes && s.codes[userCode] in s.sessions then Some(s.sessions[s.codes[userCode]]) else None
  }

  /** The session that a user code stands for, when it is in the given status, with one change made to it. */
  function Changed(s: State, userCode: string, from: Status, change: Record -> Record): State {
    match Resolve(s, userCode)
    case None => s
    case Some(r) => if r.status == from then s.(sessions := s.sessions[s.codes[userCode] := change(r)]) else s
  }

  function Grant(s: State, userCode: string, userId: int): State {
    Changed(s, userCode, Pending, (r: Record) => r.(status := Approved, approvedUserId := Some(userId)))
  }

  function Refuse(s: State, userCode: string): State {
    Changed(s, userCode, Pending, (r: Record) => r.(status := Denied))
  }

  function Mint(s: State, userCode: string, minted: Minted): State {
    Changed(s, userCode, Approved, (r: Record) => r.(minted := Some(minted)))
  }

  function Drop(s: State, deviceCode: string): State {
    if deviceCode in s.sessions
    then State(s.sessions - {deviceCode}, s.codes - {s.sessions[deviceCode].userCode})
    else s
  }

  function Expired(s: State, now: int): set<string> {
    set dc <- s.sessions | now > s.sessions[dc].expiresAt
  }

  function UserCodes(s: State, deviceCodes: set<string>): set<string> {
    set dc <- deviceCodes | dc in s.sessions :: s.sessions[dc].userCode
  }

  function Cleanup(s: State, now: int): State {
    State(s.sessions - Expired(s, now), s.codes - UserCodes(s, Expired(s, now)))
  }

  // --- what the operations leave alone, told by fields --------------------------------------------------

  /** The same session: who it is for and how long it lives. */
  predicate SameSession(r: Record, t: Record) {
    && t.deviceCode == r.deviceCode && t.userCode == r.userCode && t.clientId == r.clientId
    && t.createdAt == r.createdAt && t.expiresAt == r.expiresAt
  }

  /** At most the session that the user code stands for has changed, and it is still the same session. */
  predicate OnlyMayChange(before: State, after: State, userCode: string) {
    && after.codes == before.codes && after.sessions.Keys == before.sessions.Keys
    && forall dc <- before.sessions ::
         && SameSession(before.sessions[dc], after.sessions[dc])
         && (!(userCode in before.codes && before.codes[userCode] == dc) ==> after.sessions[dc] == before.sessions[dc])
  }

  // --- the store itself -------------------------------------------------------------------------------

  class Session {
    const deviceCode: string
    const userCode: string
    const clientId: string
    const createdAt: int
    const expiresAt: int
    var status: Status
    var approvedUserId: Option<int>
    var mintedTokenId: Option<int>
    var mintedToken: Option<string>

    constructor (deviceCode: string, userCode: string, clientId: string, now: int)
      ensures Valid() && Value() == NewRecord(deviceCode, userCode, clientId, now)
      ensures this.deviceCode == deviceCode
    {
      this.deviceCode, this.userCode, this.clientId := deviceCode, userCode, clientId;
      createdAt, expiresAt := now, now + SESSION_TTL_MS;
      status, approvedUserId, mintedTokenId, mintedToken := Pending, None, None, None;
    }

    ghost predicate Valid()
      reads this
    {
      mintedTokenId.Some? <==> mintedToken.Some?
    }

    ghost function Value(): Record
      reads this
      requires Valid()
    {
      Record(deviceCode, userCode, clientId, createdAt, expiresAt, status, approvedUserId,
             if mintedToken.Some? then Some(Minted(mintedTokenId.value, mintedToken.value)) else None)
    }
  }

  class DeviceFlowStore {
    var byDeviceCode: map<string, Session>
    var byUserCode: map<string, string>

    constructor ()
      ensures Valid() && View() == State(map[], map[])
    {
      byDeviceCode, byUserCode := map[], map[];
    }

    /** Every session object is filed under its own device code; so no object is filed twice. */
    ghost predicate Valid()
      reads this, byDeviceCode.Values
    {
      forall dc <- byDeviceCode :: byDeviceCode[dc].deviceCode == dc && byDeviceCode[dc].Valid()
    }

    ghost function View(): State
      reads this, byDeviceCode.Values
      requires Valid()
    {
      State(map dc <- byDeviceCode :: byDeviceCode[dc].Value(), byUserCode)
    }

    /** Gives up, leaving the store alone, exactly when 33 candidates in a row are taken. */
    method CreateSession(clientId: string, deviceCode: string, candidate: nat -> string, now: int)
      returns (r: Option<Session>)
      requires Valid()
      modifies this
      ensures Valid() && View() == Create(old(View()), deviceCode, candidate, clientId, now)
      ensures r.None? <==> forall k: nat :: k <= 32 ==> candidate(k) in old(byUserCode)
      ensures r.None? ==> byDeviceCode == old(byDeviceCode) && byUserCode == old(byUserCode)
      ensures r.Some? ==> Resolve(View(), r.value.userCode) ==
                          Some(Record(deviceCode, r.value.userCode, clientId, now, now + 600_000, Pending, None, None))
      ensures r.Some? ==> fresh(r.value) && byDeviceCode == old(byDeviceCode)[deviceCode := r.value]
      ensures r.Some? ==> r.value.userCode !in old(byUserCode)
      ensures r.Some? ==> byUserCode == old(byUserCode)[r.value.userCode := deviceCode]
    {
      var userCode := candidate(0);
      var tries: nat := 0;
      while userCode in byUserCode
        invariant tries <= MAX_TRIES && userCode == candidate(tries)
        invariant forall k: nat :: k < tries ==> candidate(k) in byUserCode
        invariant FirstFree(byUserCode.Keys, candidate, 0) == FirstFree(byUserCode.Keys, candidate, tries)
        decreases MAX_TRIES - tries
      {
        tries := tries + 1;
        userCode := candidate(tries);
        if tries > MAX_TRIES {
          return None;
        }
      }
      var session := new Session(deviceCode, userCode, clientId, now);
      byDeviceCode := byDeviceCode[deviceCode := session];
      byUserCode := byUserCode[userCode := deviceCode];
      InsertResolves(old(View()), deviceCode, userCode, clientId, now);
      assert View().sessions == Insert(old(View()), deviceCode, userCode, clientId, now).sessions;
      r := Some(session);
    }

    method FindByUserCode(userCode: string) returns (r: Option<Session>)
      requires Valid()
      ensures r.Some? <==> Resolve(View(), userCode).Some?
      ensures r.Some? ==> r.value in byDeviceCode.Values
      ensures r.Some? ==> userCode in byUserCode && r.value.deviceCode == byUserCode[userCode]
      ensures r.Some? ==> r.value.Valid() && Resolve(View(), userCode) == Some(r.value.Value())
    {
      if userCode !in byUserCode {
        return None;
      }
      var dc := byUserCode[userCode];
      r := if dc in byDeviceCode then Some(byDeviceCode[dc]) else None;
    }

    /** Succeeds on a pending session, and again on one that the same user approved before. */
    method Approve(userCode: string, userId: int) returns (ok: bool)
      requires Valid()
      modifies byDeviceCode.Values
      ensures Valid() && View() == Grant(old(View()), userCode, userId)
      ensures ok <==> (Resolve(old(View()), userCode).Some?
                       && var r := Resolve(old(View()), userCode).value;
                          r.status.Pending? || (r.status.Approved? && r.approvedUserId == Some(userId)))
      ensures ok ==> Resolve(View(), userCode).Some?
                     && Resolve(View(), userCode).value.status.Approved?
                     && Resolve(View(), userCode).value.approvedUserId == Some(userId)
      ensures OnlyMayChange(old(View()), View(), userCode) && (!ok ==> View() == old(View()))
    {
      var found := FindByUserCode(userCode);
      if found.None? {
        return false;
      }
      var session := found.value;
      if session.status == Approved && session.approvedUserId == Some(userId) {
        return true;
      }
      if session.status != Pending {
        return false;
      }
      session.status := Approved;
      session.approvedUserId := Some(userId);
      assert View().sessions == Grant(old(View()), userCode, userId).sessions;
      ok := true;
    }

    method Deny(userCode: string) returns (ok: bool)
      requires Valid()
      modifies byDeviceCode.Values
      ensures Valid() && View() == Refuse(old(View()), userCode)
      ensures ok <==> Resolve(old(View()), userCode).Some? && Resolve(old(View()), userCode).value.status.Pending?
      ensures ok ==> && Resolve(View(), userCode).Some? && Resolve(View(), userCode).value.status.Denied?
                     && (Resolve(View(), userCode).value.approvedUserId ==
                         Resolve(old(View()), userCode).value.approvedUserId)
      ensures OnlyMayChange(old(View()), View(), userCode) && (!ok ==> View() == old(View()))
    {
      var found := FindByUserCode(userCode);
      if found.None? {
        return false;
      }
      var session := found.value;
      if session.status != Pending {
        return false;
      }
      session.status := Denied;
      assert View().sessions == Refuse(old(View()), userCode).sessions;
      ok := true;
    }

    method RecordMintedToken(userCode: string, tokenId: int, token: string) returns (ok: bool)
      requires Valid()
      modifies byDeviceCode.Values
      ensures Valid() && View() == Mint(old(View()), userCode, Minted(tokenId, token))
      ensures ok <==> Resolve(old(View()), userCode).Some? && Resolve(old(View()), userCode).value.status.Approved?
      ensures ok ==> Resolve(View(), userCode).Some?
                     && Resolve(View(), userCode).value.minted == Some(Minted(tokenId, token))
                     && (Resolve(View(), userCode).value.approvedUserId ==
                         Resolve(old(View()), userCode).value.approvedUserId)
      ensures OnlyMayChange(old(View()), View(), userCode) && (!ok ==> View() == old(View()))
    {
      var found := FindByUserCode(userCode);
      if found.None? {
        return false;
      }
      var session := found.value;
      if session.status != Approved {
        return false;
      }
      session.mintedTokenId := Some(tokenId);
      session.mintedToken := Some(token);
      assert View().sessions == Mint(old(View()), userCode, Minted(tokenId, token)).sessions;
      ok := true;
    }

    method Remove(deviceCode: string)
      requires Valid()
      modifies this
      ensures Valid() && View() == Drop(old(View()), deviceCode)
      ensures deviceCode !in byDeviceCode && byDeviceCode.Keys == old(byDeviceCode).Keys - {deviceCode}
      ensures forall dc <- byDeviceCode :: byDeviceCode[dc] == old(byDeviceCode)[dc]
      ensures deviceCode !in old(byDeviceCode) ==> byUserCode == old(byUserCode)
      ensures deviceCode in old(byDeviceCode) ==>
                byUserCode.Keys == old(byUserCode).Keys - {old(byDeviceCode)[deviceCode].userCode}
      ensures forall uc <- byUserCode :: byUserCode[uc] == old(byUserCode)[uc]
    {
      if deviceCode !in byDeviceCode {
        return;
      }
      var session := byDeviceCode[deviceCode];
      byDeviceCode := byDeviceCode - {deviceCode};
      byUserCode := byUserCode - {session.userCode};
      assert View().sessions == Drop(old(View()), deviceCode).sessions;
    }

    /** One tick: the sessions past their lifetime leave both maps. */
    method CleanupTick(now: int)
      requires Valid()
      modifies this
      ensures Valid() && View() == Cleanup(old(View()), now)
      ensures forall dc :: dc in byDeviceCode <==> dc in old(byDeviceCode) && now <= old(byDeviceCode)[dc].expiresAt
      ensures forall dc <- byDeviceCode :: byDeviceCode[dc] == old(byDeviceCode)[dc]
    {
      ghost var before := View();
      var pending := byDeviceCode.Keys;
      ghost var gone: set<string> := {};
      while pending != {}
        invariant pending <= byDeviceCode.Keys
        invariant gone <= Expired(before, now) && gone !! byDeviceCode.Keys && Expired(before, now) <= gone + pending
        invariant byDeviceCode == old(byDeviceCode) - gone
        invariant byUserCode == before.codes - UserCodes(before, gone)
        decreases pending
      {
        var dc :| dc in pending;
        pending := pending - {dc};
        var session := byDeviceCode[dc];
        if now > session.expiresAt {
          byDeviceCode := byDeviceCode - {dc};
          byUserCode := byUserCode - {session.userCode};
          UserCodesOneMore(before, gone, dc);
          gone := gone + {dc};
        }
      }
      assert gone == Expired(before, now);
      assert View().sessions == Cleanup(before, now).sessions;
    }
  }

  lemma InsertResolves(s: State, deviceCode: string, userCode: string, clientId: string, now: int)
    ensures Resolve(Insert(s, deviceCode, userCode, clientId, now), userCode) ==
            Some(Record(deviceCode, userCode, clientId, now, now + 600_000, Pending, None, None))
  {
  }

  lemma UserCodesOneMore(s: State, gone: set<string>, dc: string)
    requires dc in s.sessions
    ensures s.codes - UserCodes(s, gone + {dc}) == s.codes - UserCodes(s, gone) - {s.sessions[dc].userCode}
  {
    assert UserCodes(s, gone + {dc}) == UserCodes(s, gone) + {s.sessions[dc].userCode};
  }

  // --- the two maps stay inverse ----------------------------------------------------------------------

  /** The two maps are exact inverses, and every session is filed under its own device code. */
  predicate Inverse(s: State) {
    && (forall dc <- s.sessions :: s.sessions[dc].deviceCode == dc
                                   && s.sessions[dc].userCode in s.codes && s.codes[s.sessions[dc].userCode] == dc)
    && (forall uc <- s.codes :: s.codes[uc] in s.sessions && s.sessions[s.codes[uc]].userCode == uc)
  }

  /** The chosen code is the first candidate that is free; there is none only when all of them are taken. */
  lemma {:induction false} FirstFreeIsFirst(taken: set<string>, candidate: nat -> string, k: nat)
    ensures match FirstFree(taken, candidate, k)
            case Some(c) => exists j: nat :: k <= j <= 32 && c == candidate(j) && c !in taken
                                             && forall i: nat :: k <= i < j ==> candidate(i) in taken
            case None => forall i: nat :: k <= i <= 32 ==> candidate(i) in taken
    decreases MAX_TRIES + 1 - k
  {
    if k <= MAX_TRIES && candidate(k) in taken {
      FirstFreeIsFirst(taken, candidate, k + 1);
    }
  }

  /** Exactly when a new session keeps the maps inverse: its device code must not be in use. Otherwise the
      user code of the session it displaces stays behind and stands for the new session. */
  lemma InsertKeepsInverseIff(s: State, deviceCode: string, userCode: string, clientId: string, now: int)
    requires Inverse(s) && userCode !in s.codes
    ensures Inverse(Insert(s, deviceCode, userCode, clientId, now)) <==> deviceCode !in s.sessions
    ensures deviceCode in s.sessions ==>
              Resolve(Insert(s, deviceCode, userCode, clientId, now), s.sessions[deviceCode].userCode) ==
              Some(NewRecord(deviceCode, userCode, clientId, now))
  {
    var t := Insert(s, deviceCode, userCode, clientId, now);
    if deviceCode in s.sessions {
      var stale := s.sessions[deviceCode].userCode;
      assert stale in t.codes && t.sessions[t.codes[stale]].userCode != stale;
    }
  }

  /** What every session in the store satisfies: an approving user exactly when approved, and a minted token
      only then. */
  predicate Sound(r: Record) {
    && (r.approvedUserId.Some? <==> r.status.Approved?)
    && (r.minted.Some? ==> r.status.Approved?)
    && r.expiresAt == r.createdAt + SESSION_TTL_MS
  }

  datatype Step =
    | StepCreate(deviceCode: string, candidate: nat -> string, clientId: string, now: int)
    | StepApprove(userCode: string, userId: int)
    | StepDeny(userCode: string)
    | StepMint(userCode: string, minted: Minted)
    | StepRemove(deviceCode: string)
    | StepCleanup(now: int)

  function Apply(s: State, step: Step): State {
    match step
    case StepCreate(deviceCode, candidate, clientId, now) => Create(s, deviceCode, candidate, clientId, now)
    case StepApprove(userCode, userId) => Grant(s, userCode, userId)
    case StepDeny(userCode) => Refuse(s, userCode)
    case StepMint(userCode, minted) => Mint(s, userCode, minted)
    case StepRemove(deviceCode) => Drop(s, deviceCode)
    case StepCleanup(now) => Cleanup(s, now)
  }

  function Run(s: State, steps: seq<Step>): State {
    if steps == [] then s else Apply(Run(s, steps[..|steps| - 1]), steps[|steps| - 1])
  }

  function After(steps: seq<Step>, k: nat): State
    requires k <= |steps|
  {
    Run(State(map[], map[]), steps[..k])
  }

  lemma AfterNext(steps: seq<Step>, k: nat)
    requires k < |steps|
    ensures After(steps, k + 1) == Apply(After(steps, k), steps[k])
  {
    assert steps[..k + 1][..k] == steps[..k];
  }

  /** The device codes drawn are never in use when drawn. */
  ghost predicate FreshCodes(steps: seq<Step>) {
    forall k :: 0 <= k < |steps| && steps[k].StepCreate? ==> steps[k].deviceCode !in After(steps, k).sessions
  }

  lemma CleanupKeepsInverse(s: State, now: int)
    requires Inverse(s)
    ensures Inverse(Cleanup(s, now))
  {
    forall uc | uc in s.codes ensures uc in UserCodes(s, Expired(s, now)) <==> s.codes[uc] in Expired(s, now) {
      assert s.sessions[s.codes[uc]].userCode == uc;
    }
  }

  lemma StepKeepsInverse(s: State, step: Step)
    requires Inverse(s) && (step.StepCreate? ==> step.deviceCode !in s.sessions)
    ensures Inverse(Apply(s, step))
  {
    match step
    case StepCreate(deviceCode, candidate, clientId, now) =>
      FirstFreeIsFirst(s.codes.Keys, candidate, 0);
      match FirstFree(s.codes.Keys, candidate, 0) {
        case Some(userCode) => InsertKeepsInverseIff(s, deviceCode, userCode, clientId, now);
        case None =>
      }
    case StepCleanup(now) => CleanupKeepsInverse(s, now);
    case _ =>
  }

  /** Over every run with fresh device codes the user-code map is the exact inverse of the session map. */
  lemma {:induction false} MapsStayInverse(steps: seq<Step>, k: nat)
    requires FreshCodes(steps) && k <= |steps|
    ensures Inverse(After(steps, k))
  {
    if k > 0 {
      MapsStayInverse(steps, k - 1);
      AfterNext(steps, k - 1);
      StepKeepsInverse(After(steps, k - 1), steps[k - 1]);
    }
  }

  /** Over every run, whatever device codes are drawn: a session has an approving user exactly when it is
      approved, and a minted token only when it is approved. */
  lemma {:induction false} SessionsStaySound(steps: seq<Step>, k: nat)
    requires k <= |steps|
    ensures forall dc <- After(steps, k).sessions :: Sound(After(steps, k).sessions[dc])
  {
    if k > 0 {
      SessionsStaySound(steps, k - 1);
      AfterNext(steps, k - 1);
    }
  }

  // --- one session over time --------------------------------------------------------------------------

  /** What may have become of a session that is still there: who it is for never changes, only a pending one
      changes status, and the approving user, once set, stays. */
  predicate Evolved(r: Record, t: Record) {
    && t.deviceCode == r.deviceCode && t.userCode == r.userCode && t.clientId == r.clientId
    && t.createdAt == r.createdAt && t.expiresAt == r.expiresAt
    && (!r.status.Pending? ==> t.status == r.status && t.approvedUserId == r.approvedUserId)
    && (r.approvedUserId.Some? ==> t.approvedUserId == r.approvedUserId)
    && (r.minted.Some? ==> t.minted.Some?)
  }

  predicate Draws(step: Step, deviceCode: string) {
    step.StepCreate? && step.deviceCode == deviceCode
  }

  lemma StepEvolves(s: State, step: Step, dc: string)
    requires !Draws(step, dc) && (dc in s.sessions ==> Sound(s.sessions[dc]))
    ensures dc in Apply(s, step).sessions ==> dc in s.sessions && Evolved(s.sessions[dc], Apply(s, step).sessions[dc])
  {
  }

  /** As long as its device code is not drawn again, a session that is present at one moment was, at every
      earlier moment since it was created, the same session in an earlier state; so status moves only from
      pending to approved or denied and the approving user never changes. In particular a session once gone
      never comes back. */
  lemma {:induction false} SessionOnlyEvolves(steps: seq<Step>, dc: string, i: nat, j: nat)
    requires i <= j <= |steps|
    requires forall k :: i <= k < j ==> !Draws(steps[k], dc)
    ensures dc in After(steps, j).sessions ==>
              dc in After(steps, i).sessions && Evolved(After(steps, i).sessions[dc], After(steps, j).sessions[dc])
    decreases j
  {
    if i < j {
      SessionOnlyEvolves(steps, dc, i, j - 1);
      AfterNext(steps, j - 1);
      SessionsStaySound(steps, j - 1);
      StepEvolves(After(steps, j - 1), steps[j - 1], dc);
    }
  }

  /** A removed session is gone for good: no device code finds it, and no user code resolves to it, until its
      device code is drawn again. */
  lemma RemovedStaysUnreachable(steps: seq<Step>, dc: string, i: nat, j: nat)
    requires FreshCodes(steps) && i < j <= |steps| && steps[i] == StepRemove(dc)
    requires forall k :: i < k < j ==> !Draws(steps[k], dc)
    ensures dc !in After(steps, j).sessions
    ensures forall uc <- After(steps, j).codes :: After(steps, j).codes[uc] != dc
    ensures forall uc, r :: Resolve(After(steps, j), uc) == Some(r) ==> r.deviceCode != dc && r.userCode == uc
  {
    AfterNext(steps, i);
    SessionOnlyEvolves(steps, dc, i + 1, j);
    MapsStayInverse(steps, j);
  }

  /** A user code that resolves, resolves to one session only, and that session is found by its device code. */
  lemma ResolvesToItsOwnSession(steps: seq<Step>, k: nat, uc: string)
    requires FreshCodes(steps) && k <= |steps|
    ensures var s := After(steps, k);
            (exists dc :: dc in s.sessions && s.sessions[dc].userCode == uc) <==> Resolve(s, uc).Some?
    ensures var s := After(steps, k);
            Resolve(s, uc).Some? ==>
              forall dc <- s.sessions :: s.sessions[dc].userCode == uc <==> s.sessions[dc] == Resolve(s, uc).value
  {
    MapsStayInverse(steps, k);
    var s := After(steps, k);
    if Resolve(s, uc).Some? {
      assert s.codes[uc] in s.sessions && s.sessions[s.codes[uc]].userCode == uc;
    }
  }

  /** A cleanup removes exactly the sessions past their lifetime, from both maps; until then an expired
      session can still be found and approved. */
  lemma CleanupIsExact(s: State, now: int, uc: string)
    requires Inverse(s)
    ensures var t := Cleanup(s, now);
            Resolve(t, uc) == match Resolve(s, uc)
                              case None => None
                              case Some(r) => if now > r.expiresAt then None else Some(r)
  {
    CleanupKeepsInverse(s, now);
  }

  // --- who approved, and which token was minted ---------------------------------------------------------

  /** Step `k` files a new session under the device code. */
  predicate CreatesAt(steps: seq<Step>, k: nat, dc: string)
    requires k < |steps|
  {
    Draws(steps[k], dc) && FirstFree(After(steps, k).codes.Keys, steps[k].candidate, 0).Some?
  }

  /** Before step `k` the user code stands for the session filed under the device code. */
  predicate StandsFor(s: State, userCode: string, dc: string) {
    userCode in s.codes && s.codes[userCode] == dc && dc in s.sessions
  }

  /** Step `k` is an approval by `u` that takes the session out of pending. */
  predicate ApprovesAt(steps: seq<Step>, k: nat, dc: string, u: int)
    requires k < |steps|
  {
    && steps[k].StepApprove? && steps[k].userId == u && StandsFor(After(steps, k), steps[k].userCode, dc)
    && After(steps, k).sessions[dc].status.Pending?
  }

  /** Step `k` records a token on the session. */
  predicate MintsAt(steps: seq<Step>, k: nat, dc: string, m: Minted)
    requires k < |steps|
  {
    && steps[k].StepMint? && steps[k].minted == m && StandsFor(After(steps, k), steps[k].userCode, dc)
    && After(steps, k).sessions[dc].status.Approved?
  }

  /** The session was approved by `u` at `k` and has not been replaced since. */
  ghost predicate ApprovedSince(steps: seq<Step>, j: nat, dc: string, u: int, k: nat)
    requires j <= |steps|
  {
    k < j && ApprovesAt(steps, k, dc, u) && forall m :: k < m < j ==> !CreatesAt(steps, m, dc)
  }

  ghost predicate ApprovedBy(steps: seq<Step>, j: nat, dc: string, u: int)
    requires j <= |steps|
  {
    exists k: nat :: ApprovedSince(steps, j, dc, u, k)
  }

  lemma ApprovedOneLonger(steps: seq<Step>, j: nat, dc: string, u: int)
    requires j < |steps|
    ensures ApprovedBy(steps, j + 1, dc, u) <==>
            ApprovesAt(steps, j, dc, u) || (ApprovedBy(steps, j, dc, u) && !CreatesAt(steps, j, dc))
  {
    var n := j + 1;
    if k: nat :| ApprovedSince(steps, n, dc, u, k) {
      assert k < j ==> ApprovedSince(steps, j, dc, u, k);
    }
    if ApprovesAt(steps, j, dc, u) { assert ApprovedSince(steps, n, dc, u, j); }
    if !CreatesAt(steps, j, dc) {
      if k: nat :| ApprovedSince(steps, j, dc, u, k) { assert ApprovedSince(steps, n, dc, u, k); }
    }
  }

  lemma ApproverAfterStep(steps: seq<Step>, j: nat, dc: string, u: int)
    requires j < |steps| && dc in After(steps, j + 1).sessions
    requires dc in After(steps, j).sessions ==> Sound(After(steps, j).sessions[dc])
    ensures CreatesAt(steps, j, dc) ==> After(steps, j + 1).sessions[dc].approvedUserId == None
    ensures !CreatesAt(steps, j, dc) ==>
              && dc in After(steps, j).sessions
              && (After(steps, j + 1).sessions[dc].approvedUserId == Some(u) <==>
                  ApprovesAt(steps, j, dc, u) || After(steps, j).sessions[dc].approvedUserId == Some(u))
  {
    AfterNext(steps, j);
  }

  /** Over every run: a session carries a user exactly when an approval by that user took it out of pending, and it is
      still that session. */
  lemma {:induction false} ApproverIsWhoApproved(steps: seq<Step>, j: nat, dc: string, u: int)
    requires j <= |steps|
    ensures dc in After(steps, j).sessions ==>
              (After(steps, j).sessions[dc].approvedUserId == Some(u) <==> ApprovedBy(steps, j, dc, u))
  {
    if j > 0 && dc in After(steps, j).sessions {
      ApproverIsWhoApproved(steps, j - 1, dc, u);
      SessionsStaySound(steps, j - 1);
      ApprovedOneLonger(steps, j - 1, dc, u);
      ApproverAfterStep(steps, j - 1, dc, u);
    }
  }

  /** Step `k` records some token on the session. */
  predicate MintsAnyAt(steps: seq<Step>, k: nat, dc: string)
    requires k < |steps|
  {
    steps[k].StepMint? && MintsAt(steps, k, dc, steps[k].minted)
  }

  ghost predicate MintedSince(steps: seq<Step>, j: nat, dc: string, m: Minted, k: nat)
    requires j <= |steps|
  {
    && k < j && MintsAt(steps, k, dc, m)
    && forall i :: k < i < j ==> !CreatesAt(steps, i, dc) && !MintsAnyAt(steps, i, dc)
  }

  ghost predicate MintedLast(steps: seq<Step>, j: nat, dc: string, m: Minted)
    requires j <= |steps|
  {
    exists k: nat :: MintedSince(steps, j, dc, m, k)
  }

  lemma MintedOneLonger(steps: seq<Step>, j: nat, dc: string, m: Minted)
    requires j < |steps|
    ensures MintedLast(steps, j + 1, dc, m) <==>
            MintsAt(steps, j, dc, m)
            || (MintedLast(steps, j, dc, m) && !CreatesAt(steps, j, dc) && !MintsAnyAt(steps, j, dc))
  {
    var n := j + 1;
    if k: nat :| MintedSince(steps, n, dc, m, k) {
      assert k < j ==> MintedSince(steps, j, dc, m, k);
    }
    if MintsAt(steps, j, dc, m) { assert MintedSince(steps, n, dc, m, j); }
    if !CreatesAt(steps, j, dc) && !MintsAnyAt(steps, j, dc) {
      if k: nat :| MintedSince(steps, j, dc, m, k) { assert MintedSince(steps, n, dc, m, k); }
    }
  }

  lemma MintedAfterStep(steps: seq<Step>, j: nat, dc: string)
    requires j < |steps| && dc in After(steps, j + 1).sessions
    ensures CreatesAt(steps, j, dc) ==> After(steps, j + 1).sessions[dc].minted == None
    ensures MintsAnyAt(steps, j, dc) ==> After(steps, j + 1).sessions[dc].minted == Some(steps[j].minted)
    ensures !CreatesAt(steps, j, dc) && !MintsAnyAt(steps, j, dc) ==>
              dc in After(steps, j).sessions
                && After(steps, j + 1).sessions[dc].minted == After(steps, j).sessions[dc].minted
  {
    AfterNext(steps, j);
  }

  /** Over every run: a session carries a token exactly when that token was the last one recorded on it while it was
      approved, and it is still that session. */
  lemma {:induction false} TokenIsLastMinted(steps: seq<Step>, j: nat, dc: string, m: Minted)
    requires j <= |steps|
    ensures dc in After(steps, j).sessions ==>
              (After(steps, j).sessions[dc].minted == Some(m) <==> MintedLast(steps, j, dc, m))
  {
    if j > 0 && dc in After(steps, j).sessions {
      TokenIsLastMinted(steps, j - 1, dc, m);
      MintedOneLonger(steps, j - 1, dc, m);
      MintedAfterStep(steps, j - 1, dc);
    }
  }
}

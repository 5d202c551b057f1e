/** Runs of the claim protocol: any number of agents and processes, in any interleaving. */
module ClaimRuns {
  import opened Wrappers
  import opened ClaimStore

  /** `ReleaseFound` is the second half of a sweep by a process that found the task stale earlier; between
      the two halves other processes may run. */
  datatype Step =
    | Elapse(seconds: nat)
    | Create(id: int, status: Status, assignee: Option<string>)
    | Claim(id: int, agent: string)
    | Renew(id: int, agent: string)
    | Sweep
    | ReleaseFound(id: int)
    | Update(id: int, newStatus: Option<Status>, newAssignee: Option<Option<string>>)

  datatype World = World(rows: Table, now: int)

  function Apply(w: World, step: Step, ttl: int): World {
    match step
    case Elapse(seconds) => w.(now := w.now + seconds)
    case Create(id, status, assignee) =>
      if id in w.rows then w else w.(rows := w.rows[id := CreateRow(status, assignee, w.now)])
    case Claim(id, agent) =>
      if id in w.rows && Claimable(w.rows[id]) then w.(rows := w.rows[id := ClaimRow(w.rows[id], agent, w.now)]) else w
    case Renew(id, agent) =>
      if id in w.rows && Renewable(w.rows[id], agent) then w.(rows := w.rows[id := RenewRow(w.rows[id], w.now)]) else w
    case Sweep => w.(rows := Swept(w.rows, w.now, ttl))
    case ReleaseFound(id) =>
      if id in w.rows && Releasable(w.rows[id]) then w.(rows := w.rows[id := ReleaseRow(w.rows[id], w.now)]) else w
    case Update(id, newStatus, newAssignee) =>
      if id in w.rows then w.(rows := w.rows[id := UpdateRow(w.rows[id], newStatus, newAssignee, w.now)]) else w
  }

  function Run(w: World, steps: seq<Step>, ttl: int): World {
    if steps == [] then w else Apply(Run(w, steps[..|steps| - 1], ttl), steps[|steps| - 1], ttl)
  }

  /** The methods of the store carry out the steps: whatever is proved of `Apply` holds of them. */
  method Perform(store: TaskStore, step: Step)
    modifies store
    ensures World(store.rows, store.now) == Apply(old(World(store.rows, store.now)), step, store.ttl)
  {
    match step
    case Elapse(seconds) => store.now := store.now + seconds;
    case Create(id, status, assignee) => var _ := store.Create(id, status, assignee);
    case Claim(id, agent) => var _ := store.ClaimTask(id, agent);
    case Renew(id, agent) => var _ := store.RenewClaim(id, agent);
    case Sweep => var _, _ := store.Sweep();
    case ReleaseFound(id) => var _ := store.ReleaseClaim(id);
    case Update(id, newStatus, newAssignee) => var _ := store.Update(id, newStatus, newAssignee);
  }

  /** So a run of the store is a run of the steps. */
  method PerformAll(store: TaskStore, steps: seq<Step>)
    modifies store
    ensures World(store.rows, store.now) == Run(old(World(store.rows, store.now)), steps, store.ttl)
  {
    ghost var w := World(store.rows, store.now);
    for i := 0 to |steps|
      invariant World(store.rows, store.now) == Before(w, steps, i, store.ttl)
    {
      BeforeNext(w, steps, i, store.ttl);
      Perform(store, steps[i]);
    }
    assert steps[..|steps|] == steps;
  }

  // --- what a step did to one task ------------------------------------------------------------------

  predicate Claims(w: World, step: Step, id: int) {
    step.Claim? && step.id == id && id in w.rows && Claimable(w.rows[id])
  }

  predicate Renews(w: World, step: Step, id: int) {
    step.Renew? && step.id == id && id in w.rows && Renewable(w.rows[id], step.agent)
  }

  predicate Releases(w: World, step: Step, id: int, ttl: int) {
    && id in w.rows
    && ((step.Sweep? && Stale(w.rows[id], w.now, ttl))
        || (step.ReleaseFound? && step.id == id && Releasable(w.rows[id])))
  }

  /** An update that takes the task from its holder without a release. */
  predicate Unassigns(w: World, step: Step, id: int) {
    step.Update? && step.id == id && step.newAssignee == Some(None)
  }

  function Before(w: World, steps: seq<Step>, k: nat, ttl: int): World
    requires k <= |steps|
  {
    Run(w, steps[..k], ttl)
  }

  lemma BeforeNext(w: World, steps: seq<Step>, k: nat, ttl: int)
    requires k < |steps|
    ensures Before(w, steps, k + 1, ttl) == Apply(Before(w, steps, k, ttl), steps[k], ttl)
  {
    assert steps[..k + 1][..k] == steps[..k];
  }

  // --- mutual exclusion -----------------------------------------------------------------------------

  /** Step `k` of the run frees the task: a release, or an update that clears its assignee. */
  predicate Frees(w: World, steps: seq<Step>, ttl: int, id: int, k: nat)
    requires k < |steps|
  {
    Releases(Before(w, steps, k, ttl), steps[k], id, ttl) || Unassigns(Before(w, steps, k, ttl), steps[k], id)
  }

  /** A task that was claimed stays assigned until it is released or unassigned. */
  lemma {:induction false} StaysAssigned(w: World, steps: seq<Step>, ttl: int, id: int, i: nat, j: nat)
    requires i < j <= |steps| && Claims(Before(w, steps, i, ttl), steps[i], id)
    requires forall k :: i < k < j ==> !Frees(w, steps, ttl, id, k)
    ensures id in Before(w, steps, j, ttl).rows && Before(w, steps, j, ttl).rows[id].assignee.Some?
    decreases j
  {
    BeforeNext(w, steps, j - 1, ttl);
    if i < j - 1 {
      StaysAssigned(w, steps, ttl, id, i, j - 1);
      assert !Frees(w, steps, ttl, id, j - 1);
    }
  }

  /** Two successful claims of one task always have a release of it between them, or an update that
      explicitly cleared its assignee. */
  lemma NoDoubleClaim(w: World, steps: seq<Step>, ttl: int, id: int, i: nat, j: nat)
    requires i < j < |steps|
    requires Claims(Before(w, steps, i, ttl), steps[i], id) && Claims(Before(w, steps, j, ttl), steps[j], id)
    ensures exists k :: i < k < j && Frees(w, steps, ttl, id, k)
  {
    if forall k :: i < k < j ==> !Frees(w, steps, ttl, id, k) {
      StaysAssigned(w, steps, ttl, id, i, j);
    }
  }

  /** The update is needed in that statement: it alone lets a second agent claim a task that no release freed. */
  lemma UpdateFreesWithoutRelease(ttl: int, a: string, b: string)
    ensures var w := World(map[1 := CreateRow(Open, None, 0)], 0);
            var steps := [Claim(1, a), Update(1, Some(Open), Some(None)), Claim(1, b)];
            && Claims(Before(w, steps, 0, ttl), steps[0], 1) && Claims(Before(w, steps, 2, ttl), steps[2], 1)
            && !Releases(Before(w, steps, 1, ttl), steps[1], 1, ttl)
  {
    var w := World(map[1 := CreateRow(Open, None, 0)], 0);
    var steps := [Claim(1, a), Update(1, Some(Open), Some(None)), Claim(1, b)];
    assert Before(w, steps, 0, ttl) == w by { assert steps[..0] == []; }
    BeforeNext(w, steps, 0, ttl);
    BeforeNext(w, steps, 1, ttl);
  }

  // --- versions -------------------------------------------------------------------------------------

  function VersionOf(w: World, id: int): nat {
    if id in w.rows then w.rows[id].version else 0
  }

  /** Every claim, renewal and release of a task raises its version by one; nothing else changes the
      version of an existing task. */
  lemma VersionStep(w: World, step: Step, ttl: int, id: int)
    requires id in w.rows
    ensures id in Apply(w, step, ttl).rows
    ensures VersionOf(Apply(w, step, ttl), id) ==
            VersionOf(w, id) + if Claims(w, step, id) || Renews(w, step, id) || Releases(w, step, id, ttl) then 1 else 0
  {
  }

  lemma {:induction false} VersionsGrow(w: World, steps: seq<Step>, ttl: int, id: int, i: nat, j: nat)
    requires i <= j <= |steps| && id in Before(w, steps, i, ttl).rows
    ensures id in Before(w, steps, j, ttl).rows
    ensures VersionOf(Before(w, steps, i, ttl), id) <= VersionOf(Before(w, steps, j, ttl), id)
    ensures (exists k :: i <= k < j && (var b := Before(w, steps, k, ttl);
               Claims(b, steps[k], id) || Renews(b, steps[k], id) || Releases(b, steps[k], id, ttl))) ==>
              VersionOf(Before(w, steps, i, ttl), id) < VersionOf(Before(w, steps, j, ttl), id)
    decreases j
  {
    if i < j {
      VersionsGrow(w, steps, ttl, id, i, j - 1);
      BeforeNext(w, steps, j - 1, ttl);
      VersionStep(Before(w, steps, j - 1, ttl), steps[j - 1], ttl, id);
    }
  }

  // --- an active holder is safe from sweeps -----------------------------------------------------------

  /** The task carries no claim older than `t`. */
  predicate NoOlderClaim(w: World, id: int, t: int) {
    id in w.rows && t <= w.now && (w.rows[id].claimedAt.Some? ==> w.rows[id].claimedAt.value >= t)
  }

  lemma NoOlderClaimStep(w: World, step: Step, ttl: int, id: int, t: int)
    requires NoOlderClaim(w, id, t)
    ensures NoOlderClaim(Apply(w, step, ttl), id, t)
  {
  }

  lemma {:induction false} NoOlderClaimRun(w: World, steps: seq<Step>, ttl: int, id: int, i: nat, j: nat)
    requires i < j <= |steps|
    requires Claims(Before(w, steps, i, ttl), steps[i], id) || Renews(Before(w, steps, i, ttl), steps[i], id)
    ensures NoOlderClaim(Before(w, steps, j, ttl), id, Before(w, steps, i, ttl).now)
    decreases j
  {
    BeforeNext(w, steps, j - 1, ttl);
    if i < j - 1 {
      NoOlderClaimRun(w, steps, ttl, id, i, j - 1);
      NoOlderClaimStep(Before(w, steps, j - 1, ttl), steps[j - 1], ttl, id, Before(w, steps, i, ttl).now);
    }
  }

  /** In any run, a sweep less than the TTL after a claim or renewal of a task does not touch the task:
      a holder who renews often enough is never swept. */
  lemma ActiveHolderIsNeverSwept(w: World, steps: seq<Step>, ttl: int, id: int, i: nat, j: nat)
    requires i < j < |steps| && steps[j].Sweep?
    requires Claims(Before(w, steps, i, ttl), steps[i], id) || Renews(Before(w, steps, i, ttl), steps[i], id)
    requires Before(w, steps, j, ttl).now - Before(w, steps, i, ttl).now < ttl
    ensures id in Before(w, steps, j, ttl).rows && id in Before(w, steps, j + 1, ttl).rows
    ensures Before(w, steps, j + 1, ttl).rows[id] == Before(w, steps, j, ttl).rows[id]
  {
    NoOlderClaimRun(w, steps, ttl, id, i, j);
    BeforeNext(w, steps, j, ttl);
  }

  /** That promise rests on finding and releasing in one step. When another process runs between the two
      halves of a sweep, the release hits exactly the rows that are then assigned and in progress, however
      fresh: here a claim taken at 0, found stale at `ttl`, renewed by its holder in that very second, and
      released all the same. */
  lemma SplitSweepReleasesRenewedClaim(ttl: nat, agent: string)
    requires ttl > 0
    ensures var w := World(map[1 := CreateRow(Open, None, 0)], 0);
            var steps := [Claim(1, agent), Elapse(ttl), Renew(1, agent), ReleaseFound(1)];
            && 1 in StaleIds(Before(w, steps, 2, ttl).rows, Before(w, steps, 2, ttl).now, ttl)
            && Renews(Before(w, steps, 2, ttl), steps[2], 1)
            && StaleIds(Before(w, steps, 3, ttl).rows, Before(w, steps, 3, ttl).now, ttl) == {}
            && Releases(Before(w, steps, 3, ttl), steps[3], 1, ttl)
  {
    var w := World(map[1 := CreateRow(Open, None, 0)], 0);
    var steps := [Claim(1, agent), Elapse(ttl), Renew(1, agent), ReleaseFound(1)];
    assert Before(w, steps, 0, ttl) == w by { assert steps[..0] == []; }
    BeforeNext(w, steps, 0, ttl);
    BeforeNext(w, steps, 1, ttl);
    BeforeNext(w, steps, 2, ttl);
  }

  /** Activity on a task: what restarts its clock. */
  predicate Touches(w: World, step: Step, id: int) {
    Claims(w, step, id) || Renews(w, step, id) || (step.Update? && step.id == id && id in w.rows)
  }

  /** Any claim the task carries was last active at `c` or before. */
  predicate QuietSince(w: World, id: int, c: int) {
    id in w.rows && (w.rows[id].claimedAt.Some? ==> w.rows[id].claimedAt.value <= c && w.rows[id].updatedAt <= c)
  }

  lemma {:induction false} UntouchedStaysQuiet(w: World, steps: seq<Step>, ttl: int, id: int, i: nat, j: nat, c: int)
    requires i <= j <= |steps| && QuietSince(Before(w, steps, i, ttl), id, c)
    requires forall k :: i <= k < j && Touches(Before(w, steps, k, ttl), steps[k], id) ==>
             Before(w, steps, k, ttl).now <= c
    ensures QuietSince(Before(w, steps, j, ttl), id, c)
    decreases j
  {
    if i < j {
      UntouchedStaysQuiet(w, steps, ttl, id, i, j - 1, c);
      BeforeNext(w, steps, j - 1, ttl);
      QuietStep(Before(w, steps, j - 1, ttl), steps[j - 1], ttl, id, c);
    }
  }

  lemma QuietStep(w: World, step: Step, ttl: int, id: int, c: int)
    requires QuietSince(w, id, c) && (Touches(w, step, id) ==> w.now <= c)
    ensures QuietSince(Apply(w, step, ttl), id, c)
  {
  }

  predicate UpdatedAfter(w: World, id: int, t: int) {
    id in w.rows && t <= w.now && w.rows[id].updatedAt >= t
  }

  lemma UpdatedStep(w: World, step: Step, ttl: int, id: int, t: int)
    requires UpdatedAfter(w, id, t)
    ensures UpdatedAfter(Apply(w, step, ttl), id, t)
  {
  }

  lemma {:induction false} TouchedIsUpdated(w: World, steps: seq<Step>, ttl: int, id: int, k: nat, j: nat)
    requires k < j <= |steps| && Touches(Before(w, steps, k, ttl), steps[k], id)
    ensures UpdatedAfter(Before(w, steps, j, ttl), id, Before(w, steps, k, ttl).now)
    decreases j
  {
    BeforeNext(w, steps, j - 1, ttl);
    if k < j - 1 {
      TouchedIsUpdated(w, steps, ttl, id, k, j - 1);
      UpdatedStep(Before(w, steps, j - 1, ttl), steps[j - 1], ttl, id, Before(w, steps, k, ttl).now);
    }
  }

  lemma {:induction false} ClockAdvances(w: World, steps: seq<Step>, ttl: int, i: nat, j: nat)
    requires i <= j <= |steps|
    ensures Before(w, steps, i, ttl).now <= Before(w, steps, j, ttl).now
    decreases j
  {
    if i < j {
      ClockAdvances(w, steps, ttl, i, j - 1);
      BeforeNext(w, steps, j - 1, ttl);
    }
  }

  /** Exactly when a split sweep is safe: a claim found stale at step `i` is still stale when it is released
      at step `j` if and only if the task still carries a claim time, and no claim, renewal or update of it in
      between is less than the TTL old. */
  lemma SplitSweepIsSafeIff(w: World, steps: seq<Step>, ttl: int, id: int, i: nat, j: nat)
    requires i <= j < |steps| && Releases(Before(w, steps, j, ttl), steps[j], id, ttl)
    requires id in StaleIds(Before(w, steps, i, ttl).rows, Before(w, steps, i, ttl).now, ttl)
    ensures id in StaleIds(Before(w, steps, j, ttl).rows, Before(w, steps, j, ttl).now, ttl) <==>
            (&& Before(w, steps, j, ttl).rows[id].claimedAt.Some?
             && forall k :: i <= k < j && Touches(Before(w, steps, k, ttl), steps[k], id) ==>
                              Before(w, steps, j, ttl).now - Before(w, steps, k, ttl).now >= ttl)
  {
    var end := Before(w, steps, j, ttl);
    ClockAdvances(w, steps, ttl, i, j);
    if end.rows[id].claimedAt.Some? &&
       forall k :: i <= k < j && Touches(Before(w, steps, k, ttl), steps[k], id) ==>
                     end.now - Before(w, steps, k, ttl).now >= ttl {
      UntouchedStaysQuiet(w, steps, ttl, id, i, j, end.now - ttl);
    }
    forall k | i <= k < j && Touches(Before(w, steps, k, ttl), steps[k], id)
               && end.now - Before(w, steps, k, ttl).now < ttl
      ensures id !in StaleIds(end.rows, end.now, ttl)
    {
      TouchedIsUpdated(w, steps, ttl, id, k, j);
    }
  }

  /** The first half of the condition is needed too. A task found stale is released by another sweep and then
      assigned by an update, which sets no claim time; the late release takes it from its new holder although
      nothing touched it within the TTL. */
  lemma SplitSweepReleasesAssignedTask(ttl: nat, a: string, b: string)
    requires ttl > 0
    ensures var w := World(map[1 := CreateRow(Open, None, 0)], 0);
            var steps := [Claim(1, a), Elapse(ttl), Sweep, Update(1, Some(InProgress), Some(Some(b))), Elapse(ttl),
                          ReleaseFound(1)];
            var end := Before(w, steps, 5, ttl);
            && 1 in StaleIds(Before(w, steps, 2, ttl).rows, Before(w, steps, 2, ttl).now, ttl)
            && (forall k :: 2 <= k < 5 && Touches(Before(w, steps, k, ttl), steps[k], 1) ==>
                              end.now - Before(w, steps, k, ttl).now >= ttl)
            && StaleIds(end.rows, end.now, ttl) == {} && 1 in end.rows && end.rows[1].assignee == Some(b)
            && Releases(end, steps[5], 1, ttl)
  {
    var w := World(map[1 := CreateRow(Open, None, 0)], 0);
    var steps := [Claim(1, a), Elapse(ttl), Sweep, Update(1, Some(InProgress), Some(Some(b))), Elapse(ttl),
                  ReleaseFound(1)];
    assert Before(w, steps, 0, ttl) == w by { assert steps[..0] == []; }
    BeforeNext(w, steps, 0, ttl);
    BeforeNext(w, steps, 1, ttl);
    BeforeNext(w, steps, 2, ttl);
    BeforeNext(w, steps, 3, ttl);
    BeforeNext(w, steps, 4, ttl);
    var end := Before(w, steps, 5, ttl);
    assert forall id: int :: id !in StaleIds(end.rows, end.now, ttl);
    assert StaleIds(end.rows, end.now, ttl) <= {};
  }

  // --- completion times -------------------------------------------------------------------------------

  /** A completion time is carried exactly by the tasks that are done. */
  predicate CompletionAgrees(r: Row) { r.completedAt.Some? <==> r.status.Done? }

  /** The step creates the task as done; the service never asks for that. */
  predicate CreatesDone(w: World, step: Step, id: int) {
    step.Create? && step.id == id && step.status.Done? && id !in w.rows
  }

  predicate IsDone(w: World, id: int) { id in w.rows && w.rows[id].status.Done? }

  /** The task was created as done at `k` and has been done ever since. */
  ghost predicate DoneSinceCreation(w: World, steps: seq<Step>, ttl: int, id: int, k: nat, n: nat)
    requires n <= |steps|
  {
    && k < n && CreatesDone(Before(w, steps, k, ttl), steps[k], id)
    && forall j :: k < j <= n ==> IsDone(Before(w, steps, j, ttl), id)
  }

  ghost predicate EverDoneSinceCreation(w: World, steps: seq<Step>, ttl: int, id: int, n: nat)
    requires n <= |steps|
  {
    exists k: nat :: DoneSinceCreation(w, steps, ttl, id, k, n)
  }

  lemma DoneOneLonger(w: World, steps: seq<Step>, ttl: int, id: int, n: nat)
    requires n < |steps|
    ensures EverDoneSinceCreation(w, steps, ttl, id, n + 1) <==>
            (&& IsDone(Before(w, steps, n + 1, ttl), id)
             && (EverDoneSinceCreation(w, steps, ttl, id, n) || CreatesDone(Before(w, steps, n, ttl), steps[n], id)))
  {
    var m := n + 1;
    if k: nat :| DoneSinceCreation(w, steps, ttl, id, k, m) {
      assert k < n ==> DoneSinceCreation(w, steps, ttl, id, k, n);
    }
    if IsDone(Before(w, steps, n + 1, ttl), id) {
      if k: nat :| DoneSinceCreation(w, steps, ttl, id, k, n) {
        assert DoneSinceCreation(w, steps, ttl, id, k, n + 1);
      }
      if CreatesDone(Before(w, steps, n, ttl), steps[n], id) {
        assert DoneSinceCreation(w, steps, ttl, id, n, n + 1);
      }
    }
  }

  /** One step, in all cases: what breaks the agreement and what restores it. */
  lemma CompletionStep(w: World, step: Step, ttl: int, id: int)
    requires id in w.rows ==> (w.rows[id].completedAt.Some? ==> w.rows[id].status.Done?)
    ensures var w' := Apply(w, step, ttl);
            id in w'.rows ==>
              && (w'.rows[id].completedAt.Some? ==> w'.rows[id].status.Done?)
              && (!CompletionAgrees(w'.rows[id]) <==>
                    && IsDone(w', id)
                    && ((id in w.rows && !CompletionAgrees(w.rows[id])) || CreatesDone(w, step, id)))
  {
  }

  /** Over any run of repository calls a completion time implies that the task is done, and the converse fails
      for exactly the tasks created as done that never left that status. */
  lemma {:induction false} CompletionOverRuns(w: World, steps: seq<Step>, ttl: int, id: int, n: nat)
    requires n <= |steps| && forall i <- w.rows :: CompletionAgrees(w.rows[i])
    ensures EverDoneSinceCreation(w, steps, ttl, id, n) ==> id in Before(w, steps, n, ttl).rows
    ensures id in Before(w, steps, n, ttl).rows ==>
              var r := Before(w, steps, n, ttl).rows[id];
              && (r.completedAt.Some? ==> r.status.Done?)
              && (!CompletionAgrees(r) <==> EverDoneSinceCreation(w, steps, ttl, id, n))
  {
    if n == 0 {
      assert steps[..0] == [];
    } else {
      CompletionOverRuns(w, steps, ttl, id, n - 1);
      BeforeNext(w, steps, n - 1, ttl);
      DoneOneLonger(w, steps, ttl, id, n - 1);
      CompletionStep(Before(w, steps, n - 1, ttl), steps[n - 1], ttl, id);
    }
  }

  /** The service creates every task as open. Over all its runs a completion time is carried exactly by the
      tasks that are done. */
  lemma ServiceKeepsCompletionTimes(w: World, steps: seq<Step>, ttl: int, id: int)
    requires forall i <- w.rows :: CompletionAgrees(w.rows[i])
    requires forall k :: 0 <= k < |steps| && steps[k].Create? ==> steps[k].status.Open?
    requires id in Run(w, steps, ttl).rows
    ensures CompletionAgrees(Run(w, steps, ttl).rows[id])
  {
    CompletionOverRuns(w, steps, ttl, id, |steps|);
    assert steps[..|steps|] == steps;
  }

  /** The task has been done ever since step `k`, before which it was not. */
  ghost predicate DoneSince(w: World, steps: seq<Step>, ttl: int, id: int, k: nat, n: nat)
    requires n <= |steps|
  {
    && k < n && id in Before(w, steps, k, ttl).rows && !IsDone(Before(w, steps, k, ttl), id)
    && forall j :: k < j <= n ==> IsDone(Before(w, steps, j, ttl), id)
  }

  /** The last move into done took place at time `c`, and the task has not moved since. */
  ghost predicate CompletedAt(w: World, steps: seq<Step>, ttl: int, id: int, c: int, n: nat)
    requires n <= |steps|
  {
    exists k: nat :: DoneSince(w, steps, ttl, id, k, n) && Before(w, steps, k, ttl).now == c
  }

  /** The task came with completion time `c` and has been done all along. */
  ghost predicate CameCompleted(w: World, steps: seq<Step>, ttl: int, id: int, c: int, n: nat)
    requires n <= |steps|
  {
    && id in w.rows && w.rows[id].completedAt == Some(c)
    && forall j :: 0 <= j <= n ==> IsDone(Before(w, steps, j, ttl), id)
  }

  lemma CompletedOneLonger(w: World, steps: seq<Step>, ttl: int, id: int, c: int, n: nat)
    requires n < |steps|
    ensures CompletedAt(w, steps, ttl, id, c, n + 1) <==>
            (&& IsDone(Before(w, steps, n + 1, ttl), id)
             && (|| CompletedAt(w, steps, ttl, id, c, n)
                 || (var b := Before(w, steps, n, ttl); id in b.rows && !IsDone(b, id) && b.now == c)))
  {
    var m := n + 1;
    if k: nat :| DoneSince(w, steps, ttl, id, k, m) && Before(w, steps, k, ttl).now == c {
      assert k < n ==> DoneSince(w, steps, ttl, id, k, n);
    }
    if IsDone(Before(w, steps, m, ttl), id) {
      if k: nat :| DoneSince(w, steps, ttl, id, k, n) && Before(w, steps, k, ttl).now == c {
        assert DoneSince(w, steps, ttl, id, k, m);
      }
      var b := Before(w, steps, n, ttl);
      if id in b.rows && !IsDone(b, id) {
        assert DoneSince(w, steps, ttl, id, n, m);
      }
    }
  }

  lemma CompletionTimeStep(w: World, step: Step, ttl: int, id: int, c: int)
    requires id in w.rows ==> (w.rows[id].completedAt.Some? ==> w.rows[id].status.Done?)
    ensures var w' := Apply(w, step, ttl);
            (id in w'.rows && w'.rows[id].completedAt == Some(c)) <==>
            (&& IsDone(w', id) && id in w.rows
             && if w.rows[id].status.Done? then w.rows[id].completedAt == Some(c) else w.now == c)
  {
  }

  /** Over any run a task carries completion time `c` exactly when it was last moved into done at `c` and has
      been done since, or came with it. */
  lemma {:induction false} CompletionTimeIsLastMove(w: World, steps: seq<Step>, ttl: int, id: int, c: int, n: nat)
    requires n <= |steps| && forall i <- w.rows :: CompletionAgrees(w.rows[i])
    ensures (id in Before(w, steps, n, ttl).rows && Before(w, steps, n, ttl).rows[id].completedAt == Some(c)) <==>
            (CompletedAt(w, steps, ttl, id, c, n) || CameCompleted(w, steps, ttl, id, c, n))
  {
    if n == 0 {
      assert steps[..0] == [];
    } else {
      CompletionTimeIsLastMove(w, steps, ttl, id, c, n - 1);
      CompletionOverRuns(w, steps, ttl, id, n - 1);
      BeforeNext(w, steps, n - 1, ttl);
      CompletedOneLonger(w, steps, ttl, id, c, n - 1);
      CompletionTimeStep(Before(w, steps, n - 1, ttl), steps[n - 1], ttl, id, c);
    }
  }

  /** Only a direct call of the repository reaches the other case: a task created as done has no completion time. */
  lemma CreatedAsDone(ttl: int)
    ensures var end := Run(World(map[], 0), [Create(1, Done, None)], ttl);
            1 in end.rows && end.rows[1].status.Done? && end.rows[1].completedAt.None?
  {
    var steps := [Create(1, Done, None)];
    assert steps[..0] == [];
    assert Run(World(map[], 0), steps[..0], ttl) == World(map[], 0);
  }
}

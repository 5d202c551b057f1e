/** When a client is told of what it misses: on well-timed histories, and without an id. */
module SseHonesty {
  import opened Wrappers
  import opened EventLog
  import opened SseClient

  // --- well-timed histories -----------------------------------------------------------------------------

  /** The client comes with a positive id of this process, or with none. */
  predicate OwnId(w: World) {
    w.client.id.Some? ==> w.client.id.value == w.client.owed > 0
  }

  lemma {:induction false} RunInit(cfg: Config, w: World, steps: seq<Step>)
    requires steps != [] && WellTimed(Run(cfg, w, steps).history, cfg.ttl)
    ensures WellTimed(Run(cfg, w, steps[..|steps| - 1]).history, cfg.ttl)
  {
    var before, after := Run(cfg, w, steps[..|steps| - 1]), Run(cfg, w, steps);
    if steps[|steps| - 1].Publish? {
      WellTimedInit(after.history, cfg.ttl);
      assert after.history[..|before.history|] == before.history;
    }
  }

  lemma {:induction false} IdStays(cfg: Config, w: World, steps: seq<Step>)
    ensures Run(cfg, w, steps).client.id == w.client.id
    ensures w.client.id.Some? ==> Run(cfg, w, steps).client.owed == w.client.owed
    ensures w.client.owed <= |w.history| ==>
              w.client.owed <= Run(cfg, w, steps).client.owed <= |Run(cfg, w, steps).history|
  {
    if steps != [] { IdStays(cfg, w, steps[..|steps| - 1]); }
  }

  /** On a well-timed history a client that was complete so far is told of what a reconnect misses. */
  lemma {:induction false} MissIsAnnounced(cfg: Config, w: World, seen: nat)
    requires Sound(cfg, w) && CompleteUpTo(cfg, w, seen) && OwnId(w)
    requires MissesNow(cfg, w) && WellTimed(w.history, cfg.ttl)
    ensures SendsGap(Buffer(cfg, w), ResumesWith(w.client))
  {
    var log, from := Log(w.history), ResumesWith(w.client);
    var e :| Gone(cfg, w, e);
    LogIsSelected(w.history);
    WantedExactly(log[..seen], cfg.filters, w.client.owed);
    PrefixIds(w.history, seen);
    forall x | x in log && x.id <= seen ensures x in log[..seen] { assert log[..seen][x.id - 1] == x; }
    assert from <= seen && from > 0 by {
      if w.client.received != [] { assert w.client.received[|w.client.received| - 1] in log[..seen]; }
    }
    TimedReplayIsHonest(w.history, cfg.maxSize, cfg.ttl, cfg.filters, from);
  }

  lemma {:induction false} NoGapNoMiss(cfg: Config, w: World, steps: seq<Step>)
    requires NewClient(w) && OwnId(w) && WellTimed(Run(cfg, w, steps).history, cfg.ttl)
    requires !Run(cfg, w, steps).client.gapSeen
    ensures !Missed(cfg, w, steps)
  {
    if steps != [] {
      var init := steps[..|steps| - 1];
      var before := Run(cfg, w, init);
      RunInit(cfg, w, steps);
      NoGapNoMiss(cfg, w, init);
      MissedOneMore(cfg, w, steps);
      if MissesAt(cfg, w, steps, |steps| - 1) {
        var seen := NothingMissedSoFar(cfg, w, init);
        ReceivedIsSound(cfg, w, init);
        IdStays(cfg, w, init);
        MissIsAnnounced(cfg, before, seen);
      }
    }
  }

  /** Exactly once, or honest. On a well-timed history a client with a positive id of this process, or with none,
      has a prefix of what is due as long as no `replay-gap` was sent, and all of it while it is connected. */
  lemma ExactlyOnceOrHonest(cfg: Config, w: World, steps: seq<Step>)
    requires NewClient(w) && OwnId(w) && WellTimed(Run(cfg, w, steps).history, cfg.ttl)
    ensures var end := Run(cfg, w, steps);
            && Sound(cfg, end)
            && (!end.client.gapSeen ==> end.client.received <= Due(cfg, end))
            && (!end.client.gapSeen && end.client.connected ==> end.client.received == Due(cfg, end))
  {
    ReceivedIsSound(cfg, w, steps);
    CompleteIffNothingMissed(cfg, w, steps);
    if !Run(cfg, w, steps).client.gapSeen { NoGapNoMiss(cfg, w, steps); }
  }

  // --- clients without an id ------------------------------------------------------------------------------

  /** A matching event was broadcast after id `a` and up to id `b`. */
  ghost predicate WantedBetween(log: seq<Entry>, f: Filters, a: nat, b: nat) {
    exists e :: e in log && a < e.id <= b && Matches(e.event, f)
  }

  /** Listening from a later id on gives the same events exactly when no matching one falls in between. */
  lemma {:induction false} LaterStartLoses(history: seq<Tick>, f: Filters, a: nat, b: nat)
    requires a <= b
    ensures Wanted(Log(history), f, b) == Wanted(Log(history), f, a) <==> !WantedBetween(Log(history), f, a, b)
  {
    LogIsSelected(history);
    SelectionIsExact(history, Log(history), f, b, a);
  }

  /** Until it has received something a client without an id starts afresh at every connect, and nothing tells it.
      So if it began to listen after id `joined`, it has everything since then exactly when nothing due was gone at
      any later connect, and no matching event fell between `joined` and the last connect without an id. */
  lemma FreshConnectsLoseSilently(cfg: Config, w: World, joined: nat, steps: seq<Step>)
    requires NewClient(w) && w.client.id.None? && joined == |w.history|
    requires Run(cfg, w, steps).client.connected
    ensures var end := Run(cfg, w, steps);
            end.client.received == Wanted(Log(end.history), cfg.filters, joined) <==>
            !Missed(cfg, w, steps) && !WantedBetween(Log(end.history), cfg.filters, joined, end.client.owed)
  {
    var end := Run(cfg, w, steps);
    ReceivedIsSound(cfg, w, steps);
    CompleteIffNothingMissed(cfg, w, steps);
    IdStays(cfg, w, steps);
    LaterStartLoses(end.history, cfg.filters, joined, end.client.owed);
    WantedExactly(Log(end.history), cfg.filters, joined);
  }

  /** The loss happens: the connection drops before the first event, and that event is never sent. */
  lemma DroppedBeforeFirstEvent(cfg: Config, e: Event)
    requires cfg.ttl > 0 && Matches(e, cfg.filters)
    ensures var steps := [Connect, Disconnect, Publish(Tick(e, e.timestamp)), Connect];
            var end := Run(cfg, World([], Client(false, None, 0, [], false)), steps);
            && WellTimed(end.history, cfg.ttl)
            && end.client == Client(true, None, 1, [], false)
            && Wanted(Log(end.history), cfg.filters, 0) == [Entry(1, e)]
  {
    var steps := [Connect, Disconnect, Publish(Tick(e, e.timestamp)), Connect];
    var w := World([], Client(false, None, 0, [], false));
    assert steps[..3][..2] == steps[..2] && steps[..2][..1] == steps[..1] && steps[..1][..0] == [];
    assert Run(cfg, w, steps[..1]) == World([], Client(true, None, 0, [], false));
    assert Run(cfg, w, steps[..2]) == World([], Client(false, None, 0, [], false));
    var history := [Tick(e, e.timestamp)];
    assert Run(cfg, w, steps[..3]) == World(history, Client(false, None, 0, [], false));
    assert Run(cfg, w, steps) == World(history, Client(true, None, 1, [], false));
    assert Log(history) == [Entry(1, e)] && Log(history)[..0] == [];
  }
}

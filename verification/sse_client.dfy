/** A client of the event stream that may lose its connection, and that reconnects with the id of the last event
    it received if it has one, over any run of broadcasts, disconnects and connects. Sends to an open connection
    succeed. Nothing is assumed about clocks, timestamps or the client's first id unless a lemma says so. */
module SseClient {
  import opened Wrappers
  import opened EventLog

  datatype Config = Config(maxSize: nat, ttl: int, filters: Filters)

  /** `id` is the id the client brought along, if any, and `received` what it got from this server process. It
      counts on the events of this process after `owed`: that is its id, or 0 when the id stems from an earlier
      process. Without an id it is the newest id when it last connected without any. */
  datatype Client = Client(connected: bool, id: Option<nat>, owed: nat, received: seq<Entry>, gapSeen: bool)

  datatype World = World(history: seq<Tick>, client: Client)

  datatype Step = Publish(tick: Tick) | Disconnect | Connect

  /** The client's request carries a `Last-Event-ID`. */
  predicate SendsId(client: Client) { client.id.Some? || client.received != [] }

  function ResumesWith(client: Client): nat
    requires SendsId(client)
  {
    if client.received == [] then client.id.value else client.received[|client.received| - 1].id
  }

  function Buffer(cfg: Config, w: World): seq<Entry> {
    BufferAfter(w.history, cfg.maxSize, cfg.ttl)
  }

  function Apply(cfg: Config, w: World, step: Step): World {
    match step
    case Publish(tick) =>
      var entry := Entry(|w.history| + 1, tick.event);
      var client := if w.client.connected && Matches(tick.event, cfg.filters)
                    then w.client.(received := w.client.received + [entry]) else w.client;
      World(w.history + [tick], client)
    case Disconnect => w.(client := w.client.(connected := false))
    case Connect =>
      if w.client.connected then w
      else if !SendsId(w.client) then w.(client := w.client.(connected := true, owed := |w.history|))
      else
        var from := ResumesWith(w.client);
        w.(client := w.client.(connected := true,
                               received := w.client.received + Wanted(Buffer(cfg, w), cfg.filters, from),
                               gapSeen := w.client.gapSeen || SendsGap(Buffer(cfg, w), from)))
  }

  function Run(cfg: Config, w: World, steps: seq<Step>): World {
    if steps == [] then w else Apply(cfg, Run(cfg, w, steps[..|steps| - 1]), steps[|steps| - 1])
  }

  /** A client before its first request to this process. */
  predicate NewClient(w: World) {
    && !w.client.connected && w.client.received == [] && !w.client.gapSeen && w.client.owed <= |w.history|
    && (if w.client.id.Some? then w.client.owed <= w.client.id.value else w.client.owed == |w.history|)
  }

  /** The server restarts: the log starts anew, and the client keeps its cursor. */
  function Restarted(w: World): World {
    World([], Client(false, if SendsId(w.client) then Some(ResumesWith(w.client)) else None, 0, [], false))
  }

  lemma RestartIsNew(w: World)
    ensures NewClient(Restarted(w))
  {
  }

  // --- what is received is genuine --------------------------------------------------------------------

  /** Genuine events of the log in strictly increasing order, each wanted and each owed. */
  ghost predicate Sound(cfg: Config, w: World) {
    && w.client.owed <= |w.history|
    && (w.client.id.Some? && w.client.received == [] ==> w.client.owed <= w.client.id.value)
    && Selected(Log(w.history), w.client.received, |w.history|)
    && forall e :: e in w.client.received ==> e.id > w.client.owed && Matches(e.event, cfg.filters)
  }

  lemma {:induction false} SelectedConcat(log: seq<Entry>, a: seq<Entry>, k: int, b: seq<Entry>, hi: int)
    requires Selected(log, a, k) && Selected(log, b, hi) && k <= hi && forall e :: e in b ==> e.id > k
    ensures Selected(log, a + b, hi)
    decreases |b|
  {
    if b == [] {
      assert a + b == a;
      SelectedHigher(log, a, k, hi);
    } else {
      var init, last := b[..|b| - 1], b[|b| - 1];
      assert b == init + [last];
      assert last in b && forall e :: e in init ==> e in b;
      SelectedConcat(log, a, k, init, last.id - 1);
      SelectedLast(log, a + init, last, hi);
      assert a + b == a + init + [last];
    }
  }

  lemma {:induction false} PublishStaysSound(cfg: Config, w: World, tick: Tick)
    requires Sound(cfg, w)
    ensures Sound(cfg, Apply(cfg, w, Publish(tick)))
  {
    var n, entry := |w.history|, Entry(|w.history| + 1, tick.event);
    var log := Log(w.history) + [entry];
    BufferOneMore(w.history, tick, cfg.maxSize, cfg.ttl);
    SelectedLonger(Log(w.history), log, w.client.received, n);
    SelectedLast(log, w.client.received, entry, n + 1);
    SelectedHigher(log, w.client.received, n, n + 1);
  }

  lemma {:induction false} ReplayIsSelected(cfg: Config, w: World)
    requires Sound(cfg, w) && SendsId(w.client)
    ensures Selected(Log(w.history), w.client.received + Wanted(Buffer(cfg, w), cfg.filters, ResumesWith(w.client)),
                     |w.history|)
    ensures w.client.owed <= ResumesWith(w.client)
  {
    var log, received, n := Log(w.history), w.client.received, |w.history|;
    var from := ResumesWith(w.client);
    var replayed := Wanted(Buffer(cfg, w), cfg.filters, from);
    BufferIsSelected(w.history, cfg.maxSize, cfg.ttl);
    WantedIsSelected(log, Buffer(cfg, w), cfg.filters, from, n);
    WantedExactly(Buffer(cfg, w), cfg.filters, from);
    if received == [] {
      assert received + replayed == replayed;
    } else {
      assert received[|received| - 1] in received;
      SelectedConcat(log, received, from, replayed, n);
    }
  }

  lemma {:induction false} ConnectStaysSound(cfg: Config, w: World)
    requires Sound(cfg, w)
    ensures Sound(cfg, Apply(cfg, w, Connect))
  {
    if !w.client.connected && SendsId(w.client) {
      ReplayIsSelected(cfg, w);
      WantedExactly(Buffer(cfg, w), cfg.filters, ResumesWith(w.client));
    }
  }

  lemma {:induction false} StepStaysSound(cfg: Config, w: World, step: Step)
    requires Sound(cfg, w)
    ensures Sound(cfg, Apply(cfg, w, step))
  {
    match step
    case Publish(tick) => PublishStaysSound(cfg, w, tick);
    case Disconnect =>
    case Connect => ConnectStaysSound(cfg, w);
  }

  /** Over any run a client receives genuine events it wants and is owed, each once, in strictly increasing order,
      whatever the clocks do and wherever its id comes from. */
  lemma {:induction false} ReceivedIsSound(cfg: Config, w: World, steps: seq<Step>)
    requires NewClient(w)
    ensures Sound(cfg, Run(cfg, w, steps))
  {
    if steps != [] {
      ReceivedIsSound(cfg, w, steps[..|steps| - 1]);
      StepStaysSound(cfg, Run(cfg, w, steps[..|steps| - 1]), steps[|steps| - 1]);
    }
  }

  // --- when it is complete ------------------------------------------------------------------------------

  function Due(cfg: Config, w: World): seq<Entry> {
    Wanted(Log(w.history), cfg.filters, w.client.owed)
  }

  /** An event that is due, was not received, and that no reconnect will bring: it has left the buffer, or lies at
      or below the id the client resumes with. */
  ghost predicate Gone(cfg: Config, w: World, e: Entry) {
    && e in Log(w.history) && e.id > w.client.owed && Matches(e.event, cfg.filters) && e !in w.client.received
    && SendsId(w.client) && (e !in Buffer(cfg, w) || e.id <= ResumesWith(w.client))
  }

  ghost predicate SomethingGone(cfg: Config, w: World) { exists e :: Gone(cfg, w, e) }

  ghost predicate MissesNow(cfg: Config, w: World) {
    !w.client.connected && SomethingGone(cfg, w)
  }

  /** A connect with an id brings everything that is due if and only if nothing due is gone at that moment. */
  lemma {:induction false} ConnectCompletesIff(cfg: Config, w: World)
    requires Sound(cfg, w) && !w.client.connected && SendsId(w.client)
    ensures Apply(cfg, w, Connect).client.received == Due(cfg, w) <==> !MissesNow(cfg, w)
  {
    var log, received, from := Log(w.history), w.client.received, ResumesWith(w.client);
    var after := received + Wanted(Buffer(cfg, w), cfg.filters, from);
    ReplayIsSelected(cfg, w);
    BufferIsSelected(w.history, cfg.maxSize, cfg.ttl);
    SelectedMembers(log, Buffer(cfg, w), |w.history|);
    SelectedMembers(log, received, |w.history|);
    LogIsSelected(w.history);
    WantedIsSelected(log, log, cfg.filters, w.client.owed, |w.history|);
    MembersAfterConnect(cfg, w, after);
    if !MissesNow(cfg, w) {
      SelectionIsUnique(log, after, Due(cfg, w), |w.history|);
    }
  }

  lemma {:induction false} MembersAfterConnect(cfg: Config, w: World, after: seq<Entry>)
    requires Sound(cfg, w) && !w.client.connected && SendsId(w.client) && w.client.owed <= ResumesWith(w.client)
    requires after == w.client.received + Wanted(Buffer(cfg, w), cfg.filters, ResumesWith(w.client))
    requires forall e :: e in Buffer(cfg, w) || e in w.client.received ==> InLog(Log(w.history), e)
    requires forall e :: e in Log(w.history) <==> InLog(Log(w.history), e)
    ensures SameMembers(after, Due(cfg, w)) <==> !MissesNow(cfg, w)
  {
    WantedExactly(Buffer(cfg, w), cfg.filters, ResumesWith(w.client));
    WantedExactly(Log(w.history), cfg.filters, w.client.owed);
    if e :| Gone(cfg, w, e) {
      assert e in Due(cfg, w) && e !in after;
    } else {
      forall e ensures e in after <==> e in Due(cfg, w) {
        assert e in after <==>
               e in w.client.received || e in Wanted(Buffer(cfg, w), cfg.filters, ResumesWith(w.client));
        assert !Gone(cfg, w, e);
      }
    }
  }

  /** What is gone stays gone. */
  lemma {:induction false} StaysGone(cfg: Config, w: World, step: Step, e: Entry)
    requires Sound(cfg, w) && Gone(cfg, w, e)
    ensures Gone(cfg, Apply(cfg, w, step), e)
  {
    match step
    case Publish(tick) => GoneAfterPublish(cfg, w, tick, e);
    case Disconnect =>
    case Connect => GoneAfterConnect(cfg, w, e);
  }

  lemma {:induction false} GoneAfterPublish(cfg: Config, w: World, tick: Tick, e: Entry)
    requires Sound(cfg, w) && Gone(cfg, w, e)
    ensures Gone(cfg, Apply(cfg, w, Publish(tick)), e)
  {
    LogIsSelected(w.history);
    assert e.id <= |w.history|;
    assert Log(w.history + [tick]) == Log(w.history) + [Entry(|w.history| + 1, tick.event)] by {
      BufferOneMore(w.history, tick, cfg.maxSize, cfg.ttl);
    }
    BufferIsSelected(w.history, cfg.maxSize, cfg.ttl);
    NextBuffer(w.history, tick, cfg.maxSize, cfg.ttl);
  }

  lemma {:induction false} GoneAfterConnect(cfg: Config, w: World, e: Entry)
    requires Sound(cfg, w) && Gone(cfg, w, e)
    ensures Gone(cfg, Apply(cfg, w, Connect), e)
  {
    var replayed := Wanted(Buffer(cfg, w), cfg.filters, ResumesWith(w.client));
    WantedExactly(Buffer(cfg, w), cfg.filters, ResumesWith(w.client));
    if replayed == [] {
      assert w.client.received + replayed == w.client.received;
    } else {
      assert replayed[|replayed| - 1] in replayed;
    }
  }

  /** Step `k` of the run is a connect at which something due is gone. */
  ghost predicate MissesAt(cfg: Config, w: World, steps: seq<Step>, k: nat)
    requires k < |steps|
  {
    steps[k].Connect? && MissesNow(cfg, Run(cfg, w, steps[..k]))
  }

  ghost predicate Missed(cfg: Config, w: World, steps: seq<Step>) {
    exists k: nat :: k < |steps| && MissesAt(cfg, w, steps, k)
  }

  lemma {:induction false} MissedOneMore(cfg: Config, w: World, steps: seq<Step>)
    requires steps != []
    ensures Missed(cfg, w, steps) <==> Missed(cfg, w, steps[..|steps| - 1]) || MissesAt(cfg, w, steps, |steps| - 1)
  {
    var init := steps[..|steps| - 1];
    forall k: nat | k < |init| ensures MissesAt(cfg, w, init, k) <==> MissesAt(cfg, w, steps, k) {
      assert init[..k] == steps[..k];
    }
  }

  /** All that is due of the first `seen` events was received. */
  ghost predicate CompleteUpTo(cfg: Config, w: World, seen: nat) {
    && w.client.owed <= seen <= |w.history| && (w.client.connected ==> seen == |w.history|)
    && w.client.received == Wanted(Log(w.history)[..seen], cfg.filters, w.client.owed)
  }

  lemma WantedOneMore(log: seq<Entry>, e: Entry, f: Filters, from: nat)
    ensures Wanted(log + [e], f, from) ==
            if e.id > from && Matches(e.event, f) then Wanted(log, f, from) + [e] else Wanted(log, f, from)
  {
    assert (log + [e])[..|log|] == log;
  }

  lemma {:induction false} PublishStaysComplete(cfg: Config, w: World, tick: Tick, seen: nat)
    requires CompleteUpTo(cfg, w, seen)
    ensures CompleteUpTo(cfg, Apply(cfg, w, Publish(tick)), if w.client.connected then seen + 1 else seen)
  {
    var log, entry := Log(w.history), Entry(|w.history| + 1, tick.event);
    BufferOneMore(w.history, tick, cfg.maxSize, cfg.ttl);
    if w.client.connected {
      assert log[..seen] == log && (log + [entry])[..seen + 1] == log + [entry];
      WantedOneMore(log, entry, cfg.filters, w.client.owed);
    } else {
      assert (log + [entry])[..seen] == log[..seen];
    }
  }

  lemma {:induction false} ConnectStaysComplete(cfg: Config, w: World, seen: nat)
    requires Sound(cfg, w) && CompleteUpTo(cfg, w, seen) && !MissesNow(cfg, w) && !w.client.connected
    ensures CompleteUpTo(cfg, Apply(cfg, w, Connect), |w.history|)
  {
    var log := Log(w.history);
    assert log[..|log|] == log;
    if SendsId(w.client) {
      ConnectCompletesIff(cfg, w);
    } else {
      NothingWanted(log, cfg.filters, |w.history|);
    }
  }

  lemma {:induction false} StepStaysComplete(cfg: Config, w: World, step: Step, seen: nat) returns (seen': nat)
    requires Sound(cfg, w) && CompleteUpTo(cfg, w, seen) && !(step.Connect? && MissesNow(cfg, w))
    ensures CompleteUpTo(cfg, Apply(cfg, w, step), seen')
  {
    seen' := seen;
    match step {
      case Publish(tick) =>
        PublishStaysComplete(cfg, w, tick, seen);
        seen' := if w.client.connected then seen + 1 else seen;
      case Disconnect =>
      case Connect =>
        if !w.client.connected {
          ConnectStaysComplete(cfg, w, seen);
          seen' := |w.history|;
        }
    }
  }

  lemma {:induction false} NothingMissedSoFar(cfg: Config, w: World, steps: seq<Step>) returns (seen: nat)
    requires NewClient(w) && !Missed(cfg, w, steps)
    ensures CompleteUpTo(cfg, Run(cfg, w, steps), seen)
  {
    if steps == [] {
      seen := w.client.owed;
      PrefixIds(w.history, seen);
      NothingWanted(Log(w.history)[..seen], cfg.filters, seen);
    } else {
      MissedOneMore(cfg, w, steps);
      seen := NothingMissedSoFar(cfg, w, steps[..|steps| - 1]);
      ReceivedIsSound(cfg, w, steps[..|steps| - 1]);
      seen := StepStaysComplete(cfg, Run(cfg, w, steps[..|steps| - 1]), steps[|steps| - 1], seen);
    }
  }

  lemma PrefixIds(history: seq<Tick>, n: nat)
    requires n <= |history|
    ensures forall i :: 0 <= i < n ==> Log(history)[..n][i].id == i + 1
  {
  }

  lemma {:induction false} MissedIsGone(cfg: Config, w: World, steps: seq<Step>)
    requires NewClient(w)
    ensures Missed(cfg, w, steps) ==> SomethingGone(cfg, Run(cfg, w, steps))
  {
    if steps != [] {
      var init, last := steps[..|steps| - 1], steps[|steps| - 1];
      MissedOneMore(cfg, w, steps);
      ReceivedIsSound(cfg, w, init);
      MissedIsGone(cfg, w, init);
      SomethingStaysGone(cfg, Run(cfg, w, init), last);
    }
  }

  lemma {:induction false} SomethingStaysGone(cfg: Config, w: World, step: Step)
    requires Sound(cfg, w)
    ensures SomethingGone(cfg, w) ==> SomethingGone(cfg, Apply(cfg, w, step))
  {
    if e :| Gone(cfg, w, e) { StaysGone(cfg, w, step, e); }
  }

  /** Exactly when a client has everything, over any run, whatever the clocks do and wherever its id comes from: a
      connected client has received all that is due if and only if at no connect of the run something due was gone.
      Until then what it has is a prefix of what is due. */
  lemma CompleteIffNothingMissed(cfg: Config, w: World, steps: seq<Step>)
    requires NewClient(w)
    ensures var end := Run(cfg, w, steps);
            && (end.client.connected ==> (end.client.received == Due(cfg, end) <==> !Missed(cfg, w, steps)))
            && (!Missed(cfg, w, steps) ==> end.client.received <= Due(cfg, end))
  {
    var end := Run(cfg, w, steps);
    var log := Log(end.history);
    if Missed(cfg, w, steps) {
      MissedIsGone(cfg, w, steps);
      WantedExactly(log, cfg.filters, end.client.owed);
    } else {
      var seen := NothingMissedSoFar(cfg, w, steps);
      assert log == log[..seen] + log[seen..];
      WantedConcat(log[..seen], log[seen..], cfg.filters, end.client.owed);
      if end.client.connected { assert log[..seen] == log; }
    }
  }
}

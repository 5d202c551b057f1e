/** The streams of the SSE manager, seen from one client: what is written to its connection is what the client
    model receives, whatever happens to other connections meanwhile. */
module SseSession {
  import opened Wrappers
  import opened EventLog
  import opened SseManager
  import opened SseClient

  /** The manager as far as streams are concerned. */
  datatype Streams = Streams(connections: map<string, Connection>, history: seq<Tick>)

  /** What the manager does while a connection is open. */
  datatype Op =
    | Broadcasting(tick: Tick, failing: set<string>)
    | Opening(other: string, conn: Connection)
    | Closing(others: set<string>)

  function ApplyOp(s: Streams, op: Op): Streams {
    match op
    case Broadcasting(tick, failing) =>
      var entry := Entry(|s.history| + 1, tick.event);
      Streams(Offered(s.connections, entry, failing, s.connections.Keys), s.history + [tick])
    case Opening(other, conn) => s.(connections := s.connections[other := conn])
    case Closing(others) => s.(connections := s.connections - others)
  }

  function RunOps(s: Streams, ops: seq<Op>): Streams {
    if ops == [] then s else ApplyOp(RunOps(s, ops[..|ops| - 1]), ops[|ops| - 1])
  }

  /** No send to `id` fails, and nothing else opens or closes it. */
  predicate Undisturbed(id: string, ops: seq<Op>) {
    forall i :: 0 <= i < |ops| ==> LeavesAlone(id, ops[i])
  }

  predicate LeavesAlone(id: string, op: Op) {
    match op
    case Broadcasting(_, failing) => id !in failing
    case Opening(other, _) => other != id
    case Closing(others) => id !in others
  }

  /** The broadcasts among the operations. */
  function Publishes(ops: seq<Op>): seq<Step> {
    if ops == [] then []
    else
      var last := ops[|ops| - 1];
      Publishes(ops[..|ops| - 1]) + if last.Broadcasting? then [Publish(last.tick)] else []
  }

  /** The events written to a stream. */
  function EventsIn(sent: seq<Message>): seq<Entry> {
    if sent == [] then []
    else
      var last := sent[|sent| - 1];
      EventsIn(sent[..|sent| - 1]) + if last.EventMessage? then [last.entry] else []
  }

  predicate GapIn(sent: seq<Message>) {
    exists i :: 0 <= i < |sent| && sent[i].ReplayGap?
  }

  /** What the client got over this connection is exactly what was written to its stream. */
  ghost predicate Mirrors(cfg: Config, conn: Connection, before: Client, now: Client) {
    && conn.filters == cfg.filters && now.connected
    && now.received == before.received + EventsIn(conn.sent)
    && (now.gapSeen <==> before.gapSeen || GapIn(conn.sent))
  }

  lemma OneMoreEvent(sent: seq<Message>, entry: Entry)
    ensures EventsIn(sent + [EventMessage(entry)]) == EventsIn(sent) + [entry]
    ensures GapIn(sent + [EventMessage(entry)]) <==> GapIn(sent)
  {
    var more := sent + [EventMessage(entry)];
    assert more[..|sent|] == sent && more[|sent|] == EventMessage(entry);
    if i :| 0 <= i < |sent| && sent[i].ReplayGap? { assert more[i].ReplayGap?; }
  }

  lemma {:induction false} SendAllWrites(conn: Connection, entries: seq<Entry>)
    ensures EventsIn(SendAll(conn, entries).sent) == EventsIn(conn.sent) + entries
    ensures GapIn(SendAll(conn, entries).sent) <==> GapIn(conn.sent)
  {
    if entries == [] {
      assert EventsIn(conn.sent) + entries == EventsIn(conn.sent);
    } else {
      var init, last := entries[..|entries| - 1], entries[|entries| - 1];
      SendAllWrites(conn, init);
      OneMoreEvent(SendAll(conn, init).sent, last);
      assert entries == init + [last];
    }
  }

  lemma GapWrites(conn: Connection, buffer: seq<Entry>, from: nat)
    requires conn.sent == []
    ensures EventsIn(Told(conn, buffer, from).sent) == []
    ensures GapIn(Told(conn, buffer, from).sent) <==> SendsGap(buffer, from)
  {
    var sent := Told(conn, buffer, from).sent;
    assert sent == Gap(buffer, from);
    if SendsGap(buffer, from) {
      assert sent[0].ReplayGap? && sent[..0] == [];
    }
  }

  /** The stream right after it was opened: with the id the client resumes with, or without one. */
  function Begun(cfg: Config, w: World, s: Streams, id: string, conn: Connection): Streams {
    var begun := s.connections[id := conn];
    s.(connections := if SendsId(w.client) then AfterReplay(begun, id, Buffer(cfg, w), ResumesWith(w.client), false, {})
                      else begun)
  }

  lemma OpeningMirrors(cfg: Config, w: World, s: Streams, id: string, conn: Connection)
    requires !w.client.connected && conn.sent == [] && conn.filters == cfg.filters
    ensures id in Begun(cfg, w, s, id, conn).connections
    ensures Mirrors(cfg, Begun(cfg, w, s, id, conn).connections[id], w.client, Apply(cfg, w, Connect).client)
  {
    if SendsId(w.client) {
      ReplayWrites(conn, Buffer(cfg, w), ResumesWith(w.client));
    } else {
      assert w.client.received + [] == w.client.received;
    }
  }

  lemma ReplayWrites(conn: Connection, buffer: seq<Entry>, from: nat)
    requires conn.sent == []
    ensures var replayed := Replayed(conn, buffer, from);
            && EventsIn(replayed.sent) == Wanted(buffer, conn.filters, from)
            && (GapIn(replayed.sent) <==> SendsGap(buffer, from)) && replayed.filters == conn.filters
  {
    var wanted := Wanted(buffer, conn.filters, from);
    GapWrites(conn, buffer, from);
    SendAllWrites(Told(conn, buffer, from), wanted);
    SendAllAppends(Told(conn, buffer, from), wanted);
    assert [] + wanted == wanted;
  }

  lemma {:induction false} OpMirrors(cfg: Config, w: World, s: Streams, id: string, op: Op, before: Client)
    requires s.history == w.history && id in s.connections && LeavesAlone(id, op)
    requires Mirrors(cfg, s.connections[id], before, w.client)
    ensures var w' := if op.Broadcasting? then Apply(cfg, w, Publish(op.tick)) else w;
            && ApplyOp(s, op).history == w'.history && id in ApplyOp(s, op).connections
            && Mirrors(cfg, ApplyOp(s, op).connections[id], before, w'.client)
  {
    if op.Broadcasting? {
      var entry := Entry(|s.history| + 1, op.tick.event);
      OneMoreEvent(s.connections[id].sent, entry);
      assert before.received + (EventsIn(s.connections[id].sent) + [entry]) ==
             before.received + EventsIn(s.connections[id].sent) + [entry];
    }
  }

  /** From the opening of a stream on, through any broadcasts and anything that happens to other connections, the
      client model receives exactly what is written to the stream. So what is proved about runs of the client
      holds of the streams of the manager. */
  lemma {:induction false} StreamIsReceived(cfg: Config, w: World, s: Streams, id: string, conn: Connection,
                                            ops: seq<Op>)
    requires s.history == w.history && !w.client.connected && conn.sent == [] && conn.filters == cfg.filters
    requires Undisturbed(id, ops)
    ensures var end, client := RunOps(Begun(cfg, w, s, id, conn), ops), Run(cfg, w, [Connect] + Publishes(ops));
            && end.history == client.history && id in end.connections
            && Mirrors(cfg, end.connections[id], w.client, client.client)
  {
    var begun := Begun(cfg, w, s, id, conn);
    if ops == [] {
      OpeningMirrors(cfg, w, s, id, conn);
      assert [Connect] + [] == [Connect] && [Connect][..0] == [];
      assert Run(cfg, w, [Connect]) == Apply(cfg, Run(cfg, w, []), Connect);
    } else {
      var init, last := ops[..|ops| - 1], ops[|ops| - 1];
      assert Undisturbed(id, init) && LeavesAlone(id, last);
      StreamIsReceived(cfg, w, s, id, conn, init);
      OpMirrors(cfg, Run(cfg, w, [Connect] + Publishes(init)), RunOps(begun, init), id, last, w.client);
      if last.Broadcasting? {
        RunOneMore(cfg, w, [Connect] + Publishes(init), Publish(last.tick));
        assert [Connect] + Publishes(ops) == [Connect] + Publishes(init) + [Publish(last.tick)];
      } else {
        assert Publishes(ops) == Publishes(init);
      }
    }
  }

  lemma RunOneMore(cfg: Config, w: World, steps: seq<Step>, step: Step)
    ensures Run(cfg, w, steps + [step]) == Apply(cfg, Run(cfg, w, steps), step)
  {
    assert (steps + [step])[..|steps|] == steps;
  }

  /** A stream at some moment: it carries only logged events that its filter does not withhold, and of those every
      one that was broadcast after the first `n`. */
  ghost predicate CarriesWhatIsAskedFor(sent: seq<Message>, filters: Filters, log: seq<Entry>, n: nat) {
    && (forall e :: EventMessage(e) in sent ==> e in log && !Withheld(e.event, filters))
    && (forall i :: n <= i < |log| && !Withheld(log[i].event, filters) ==> EventMessage(log[i]) in sent)
  }

  lemma OpeningCarries(cfg: Config, w: World, s: Streams, id: string, conn: Connection)
    requires s.history == w.history && conn.sent == [] && conn.filters == cfg.filters
    ensures id in Begun(cfg, w, s, id, conn).connections
    ensures Begun(cfg, w, s, id, conn).connections[id].filters == conn.filters
    ensures CarriesWhatIsAskedFor(Begun(cfg, w, s, id, conn).connections[id].sent, conn.filters, Log(w.history),
                                  |w.history|)
  {
    if SendsId(w.client) {
      var from := ResumesWith(w.client);
      ReplayCatchesUp(conn, Buffer(cfg, w), from);
      SendAllAppends(Told(conn, Buffer(cfg, w), from), Wanted(Buffer(cfg, w), conn.filters, from));
      BufferIsSelected(w.history, cfg.maxSize, cfg.ttl);
      SelectedMembers(Log(w.history), Buffer(cfg, w), |w.history|);
      LogIsSelected(w.history);
    }
  }

  lemma {:induction false} OpCarries(s: Streams, id: string, op: Op, n: nat)
    requires id in s.connections && LeavesAlone(id, op) && n <= |s.history|
    requires CarriesWhatIsAskedFor(s.connections[id].sent, s.connections[id].filters, Log(s.history), n)
    ensures id in ApplyOp(s, op).connections && ApplyOp(s, op).connections[id].filters == s.connections[id].filters
    ensures |s.history| <= |ApplyOp(s, op).history|
    ensures CarriesWhatIsAskedFor(ApplyOp(s, op).connections[id].sent, s.connections[id].filters,
                                  Log(ApplyOp(s, op).history), n)
  {
    if op.Broadcasting? {
      var entry := Entry(|s.history| + 1, op.tick.event);
      OfferedServes(s.connections, entry, op.failing);
      assert Log(s.history + [op.tick]) == Log(s.history) + [entry];
      var sent := s.connections[id].sent;
      assert EventMessage(entry) in sent + [EventMessage(entry)];
    }
  }

  /** From its opening on, through any operations that do not disturb it, a stream carries only logged events that
      were asked for, and every one of those that is broadcast. */
  lemma {:induction false} StreamCarriesWhatIsAskedFor(cfg: Config, w: World, s: Streams, id: string, conn: Connection,
                                                       ops: seq<Op>)
    requires s.history == w.history && conn.sent == [] && conn.filters == cfg.filters && Undisturbed(id, ops)
    ensures var end := RunOps(Begun(cfg, w, s, id, conn), ops);
            && id in end.connections && end.connections[id].filters == conn.filters && |w.history| <= |end.history|
            && CarriesWhatIsAskedFor(end.connections[id].sent, conn.filters, Log(end.history), |w.history|)
  {
    if ops == [] {
      OpeningCarries(cfg, w, s, id, conn);
    } else {
      var init, last := ops[..|ops| - 1], ops[|ops| - 1];
      assert Undisturbed(id, init) && LeavesAlone(id, last);
      StreamCarriesWhatIsAskedFor(cfg, w, s, id, conn, init);
      OpCarries(RunOps(Begun(cfg, w, s, id, conn), init), id, last, |w.history|);
    }
  }
}

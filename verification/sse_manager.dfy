/** The SSE manager: live connections, the replay buffer and what each stream was sent. Sends are steps
    that succeed or fail; the clock is a parameter. */
module SseManager {
  import opened Wrappers
  import opened EventLog
  import opened SseAdmission

  /** `sent` is everything written to the connection's stream. */
  datatype Connection = Connection(filters: Filters, lastEventId: int, createdAt: int, meta: Meta, sent: seq<Message>)

  /** `lastEventId || 0` */
  function OrZero(lastEventId: Option<ResumeId>): int {
    if lastEventId.Some? && lastEventId.value.Number? then lastEventId.value.value else 0
  }

  /** A successful send. */
  function Send(conn: Connection, entry: Entry): Connection {
    conn.(sent := conn.sent + [EventMessage(entry)], lastEventId := entry.id)
  }

  function SendAll(conn: Connection, entries: seq<Entry>): Connection {
    if entries == [] then conn
    else Send(SendAll(conn, entries[..|entries| - 1]), entries[|entries| - 1])
  }

  function Events(entries: seq<Entry>): seq<Message> {
    seq(|entries|, i requires 0 <= i < |entries| => EventMessage(entries[i]))
  }

  lemma {:induction false} SendAllAppends(conn: Connection, entries: seq<Entry>)
    ensures SendAll(conn, entries).sent == conn.sent + Events(entries)
    ensures SendAll(conn, entries).filters == conn.filters && SendAll(conn, entries).meta == conn.meta
    ensures SendAll(conn, entries).createdAt == conn.createdAt
    ensures SendAll(conn, entries).lastEventId == if entries == [] then conn.lastEventId else entries[|entries| - 1].id
  {
    if entries != [] {
      SendAllAppends(conn, entries[..|entries| - 1]);
    }
  }

  function Gap(buffer: seq<Entry>, from: nat): seq<Message> {
    if SendsGap(buffer, from) then [ReplayGap(from, buffer[0].id)] else []
  }

  /** A connection once the events it may have missed are replayed: the gap message if there is one, then
      the buffered events after `from` that pass its filter. */
  function Replayed(conn: Connection, buffer: seq<Entry>, from: nat): Connection {
    SendAll(Told(conn, buffer, from), Wanted(buffer, conn.filters, from))
  }

  /** The entries whose send succeeds; `failing` are the ids whose send fails. */
  function Delivered(entries: seq<Entry>, failing: set<nat>): seq<Entry> {
    if entries == [] then []
    else
      var last := entries[|entries| - 1];
      Delivered(entries[..|entries| - 1], failing) + if last.id in failing then [] else [last]
  }

  predicate SomeFail(entries: seq<Entry>, failing: set<nat>) {
    exists i :: 0 <= i < |entries| && entries[i].id in failing
  }

  /** The gap message is due and its send fails. */
  predicate GapCloses(buffer: seq<Entry>, from: nat, gapFails: bool) { gapFails && SendsGap(buffer, from) }

  /** The connections after a replay onto `id`: a send that fails closes that connection. */
  function AfterReplay(connections: map<string, Connection>, id: string, buffer: seq<Entry>, from: nat,
                       gapFails: bool, failing: set<nat>): map<string, Connection>
    requires id in connections
  {
    if (gapFails && SendsGap(buffer, from)) || SomeFail(Wanted(buffer, connections[id].filters, from), failing)
    then connections - {id}
    else connections[id := Replayed(connections[id], buffer, from)]
  }

  /** The connections and the number of successful sends. */
  datatype Sends = Sends(connections: map<string, Connection>, count: int)

  /** A replay that has come to entry `i` of the buffer. */
  function ReplayedUpTo(before: map<string, Connection>, id: string, buffer: seq<Entry>, from: nat, gapFails: bool,
                        failing: set<nat>, i: nat): Sends
    requires id in before && i <= |buffer|
  {
    var due := Wanted(buffer[..i], before[id].filters, from);
    Sends(SentAll(before, id, Told(before[id], buffer, from), GapCloses(buffer, from, gapFails), due, failing),
          |Delivered(due, failing)|)
  }

  /** The next entry's turn. */
  function Turn(s: Sends, id: string, entry: Entry, meant: bool, ok: bool): Sends {
    if !meant then s else Sends(Sent(s.connections, id, entry, ok), if ok then s.count + 1 else s.count)
  }

  /** The connection once the gap message, if there is one, was sent. */
  function Told(conn: Connection, buffer: seq<Entry>, from: nat): Connection {
    conn.(sent := conn.sent + Gap(buffer, from))
  }

  /** The connections once the gap message was dealt with. */
  function AfterGap(before: map<string, Connection>, id: string, buffer: seq<Entry>, from: nat,
                    gapFails: bool): map<string, Connection>
    requires id in before
  {
    if !SendsGap(buffer, from) then before
    else if gapFails then before - {id}
    else before[id := before[id].(sent := before[id].sent + [ReplayGap(from, buffer[0].id)])]
  }

  lemma ReplayBegins(before: map<string, Connection>, id: string, buffer: seq<Entry>, from: nat, gapFails: bool,
                     failing: set<nat>)
    requires id in before
    ensures ReplayedUpTo(before, id, buffer, from, gapFails, failing, 0) ==
            Sends(AfterGap(before, id, buffer, from, gapFails), 0)
  {
    assert buffer[..0] == [];
    assert before[id].sent + [] == before[id].sent;
  }

  lemma {:induction false} ReplayStep(before: map<string, Connection>, id: string, buffer: seq<Entry>, from: nat,
                                      gapFails: bool, failing: set<nat>, i: nat)
    requires id in before && i < |buffer|
    ensures ReplayedUpTo(before, id, buffer, from, gapFails, failing, i + 1) ==
            Turn(ReplayedUpTo(before, id, buffer, from, gapFails, failing, i), id, buffer[i],
                 buffer[i].id > from && Matches(buffer[i].event, before[id].filters), buffer[i].id !in failing)
  {
    WantedNext(buffer, i, before[id].filters, from);
    OneMoreSent(before, id, Told(before[id], buffer, from), GapCloses(buffer, from, gapFails),
                Wanted(buffer[..i], before[id].filters, from), buffer[i], failing);
  }

  /** The connections after the entries that are due, unless one of the sends failed. */
  function SentAll(before: map<string, Connection>, id: string, told: Connection, closed: bool, due: seq<Entry>,
                   failing: set<nat>): map<string, Connection> {
    if closed || SomeFail(due, failing) then before - {id} else before[id := SendAll(told, due)]
  }

  lemma {:induction false} OneMoreSent(before: map<string, Connection>, id: string, told: Connection, closed: bool,
                                       due: seq<Entry>,
                    entry: Entry, failing: set<nat>)
    ensures SentAll(before, id, told, closed, due + [entry], failing) ==
            Sent(SentAll(before, id, told, closed, due, failing), id, entry, entry.id !in failing)
    ensures |Delivered(due + [entry], failing)| == |Delivered(due, failing)| + if entry.id in failing then 0 else 1
  {
    FailsOneMore(due, failing, entry);
    assert (due + [entry])[..|due|] == due;
    assert before[id := SendAll(told, due)][id := Send(SendAll(told, due), entry)] ==
           before[id := Send(SendAll(told, due), entry)];
  }

  lemma FailsOneMore(entries: seq<Entry>, failing: set<nat>, entry: Entry)
    ensures SomeFail(entries + [entry], failing) <==> SomeFail(entries, failing) || entry.id in failing
    ensures Delivered(entries + [entry], failing) ==
            if entry.id in failing then Delivered(entries, failing) else Delivered(entries, failing) + [entry]
  {
    var more := entries + [entry];
    assert more[..|entries|] == entries && more[|entries|] == entry;
    if i :| 0 <= i < |entries| && entries[i].id in failing { assert more[i].id in failing; }
    if i :| 0 <= i < |more| && more[i].id in failing {
      assert i < |entries| ==> entries[i].id in failing;
    }
  }

  lemma ReplayEnds(before: map<string, Connection>, id: string, buffer: seq<Entry>, from: nat, gapFails: bool,
                   failing: set<nat>)
    requires id in before
    ensures ReplayedUpTo(before, id, buffer, from, gapFails, failing, |buffer|) ==
            Sends(AfterReplay(before, id, buffer, from, gapFails, failing),
                  |Delivered(Wanted(buffer, before[id].filters, from), failing)|)
  {
    assert buffer[..|buffer|] == buffer;
  }

  /** One send to one connection; on a connection that is closed already it reaches nobody. */
  function Sent(connections: map<string, Connection>, id: string, entry: Entry, ok: bool): map<string, Connection> {
    if !ok then connections - {id}
    else if id in connections then connections[id := Send(connections[id], entry)]
    else connections
  }

  /** The live connections an event is meant for. */
  function Audience(connections: map<string, Connection>, event: Event): set<string> {
    set c <- connections | Matches(event, connections[c].filters)
  }

  /** The connections after `entry` was offered to those in `offered`. */
  function Offered(connections: map<string, Connection>, entry: Entry, failing: set<string>,
                   offered: set<string>): map<string, Connection> {
    map c <- connections | !(c in offered && c in failing && Matches(entry.event, connections[c].filters)) ::
      if c in offered && Matches(entry.event, connections[c].filters) then Send(connections[c], entry)
      else connections[c]
  }

  /** One connection's turn: nothing for a connection that does not match, a close for a failing send. */
  function OfferOne(connections: map<string, Connection>, entry: Entry, failing: set<string>,
                    c: string): map<string, Connection>
    requires c in connections
  {
    if !Matches(entry.event, connections[c].filters) then connections
    else if c in failing then connections - {c}
    else connections[c := Send(connections[c], entry)]
  }

  /** How far a broadcast has come while the connections in `pending` still wait for their turn. */
  ghost predicate Progress(before: map<string, Connection>, entry: Entry, failing: set<string>, pending: set<string>,
                           connections: map<string, Connection>, sent: int) {
    && pending <= before.Keys
    && connections == Offered(before, entry, failing, before.Keys - pending)
    && sent == |(Audience(before, entry.event) - failing) - pending|
  }

  lemma OneTurn(before: map<string, Connection>, entry: Entry, failing: set<string>, pending: set<string>,
                connections: map<string, Connection>, sent: int, c: string)
    requires Progress(before, entry, failing, pending, connections, sent) && c in pending
    ensures c in connections
    ensures Progress(before, entry, failing, pending - {c}, OfferOne(connections, entry, failing, c),
                     sent + if Matches(entry.event, connections[c].filters) && c !in failing then 1 else 0)
  {
    OfferNext(before, entry, failing, before.Keys - pending, c);
    assert before.Keys - (pending - {c}) == (before.Keys - pending) + {c};
    var served := (Audience(before, entry.event) - failing) - pending;
    assert (Audience(before, entry.event) - failing) - (pending - {c}) ==
           if Matches(entry.event, before[c].filters) && c !in failing then served + {c} else served;
  }

  lemma OfferNext(before: map<string, Connection>, entry: Entry, failing: set<string>, offered: set<string>, c: string)
    requires c in before && c !in offered
    ensures var now := Offered(before, entry, failing, offered);
            && c in now && now[c] == before[c]
            && Offered(before, entry, failing, offered + {c}) == OfferOne(now, entry, failing, c)
  {
  }

  lemma NobodyYet(before: map<string, Connection>, entry: Entry, failing: set<string>)
    ensures Progress(before, entry, failing, before.Keys, before, 0)
  {
    assert Audience(before, entry.event) - failing - before.Keys == {};
    assert Offered(before, entry, failing, before.Keys - before.Keys) == before;
  }

  lemma EverybodyServed(before: map<string, Connection>, entry: Entry, failing: set<string>,
                        connections: map<string, Connection>, sent: int)
    requires Progress(before, entry, failing, {}, connections, sent)
    ensures connections == Offered(before, entry, failing, before.Keys)
    ensures sent == |Audience(before, entry.event) - failing|
  {
    assert before.Keys - {} == before.Keys;
    assert Audience(before, entry.event) - failing - {} == Audience(before, entry.event) - failing;
  }

  lemma WantedNext(buffer: seq<Entry>, i: nat, f: Filters, from: nat)
    requires i < |buffer|
    ensures Wanted(buffer[..i + 1], f, from) ==
            if buffer[i].id > from && Matches(buffer[i].event, f) then Wanted(buffer[..i], f, from) + [buffer[i]]
            else Wanted(buffer[..i], f, from)
  {
    assert buffer[..i + 1][..i] == buffer[..i];
  }

  function Metas(connections: map<string, Connection>): Live {
    map c <- connections :: connections[c].meta
  }

  lemma SameSize(connections: map<string, Connection>)
    ensures |Metas(connections)| == |connections|
  {
    assert Metas(connections).Keys == connections.Keys;
  }

  /** The counts of the connections that are no longer in `pending`. */
  ghost predicate Counted(connections: map<string, Connection>, fingerprint: string, ip: string, pending: set<string>,
                          perKey: int, perIp: int) {
    && pending <= connections.Keys
    && perKey == |HoldersOfKey(Metas(connections), fingerprint) - pending|
    && perIp == |HoldersOfIp(Metas(connections), ip) - pending|
  }

  lemma NobodyCounted(connections: map<string, Connection>, fingerprint: string, ip: string)
    ensures Counted(connections, fingerprint, ip, connections.Keys, 0, 0)
  {
    assert HoldersOfKey(Metas(connections), fingerprint) - connections.Keys == {};
    assert HoldersOfIp(Metas(connections), ip) - connections.Keys == {};
  }

  lemma CountOne(connections: map<string, Connection>, fingerprint: string, ip: string, pending: set<string>,
                 perKey: int, perIp: int, c: string)
    requires Counted(connections, fingerprint, ip, pending, perKey, perIp) && c in pending
    ensures Counted(connections, fingerprint, ip, pending - {c},
                    perKey + if connections[c].meta.fingerprint == fingerprint then 1 else 0,
                    perIp + if connections[c].meta.ip == ip then 1 else 0)
  {
    OneLess(HoldersOfKey(Metas(connections), fingerprint), pending, c);
    OneLess(HoldersOfIp(Metas(connections), ip), pending, c);
  }

  lemma OneLess(holders: set<string>, pending: set<string>, c: string)
    requires c in pending
    ensures |holders - (pending - {c})| == |holders - pending| + if c in holders then 1 else 0
  {
    assert holders - (pending - {c}) == if c in holders then (holders - pending) + {c} else holders - pending;
  }

  lemma EverybodyCounted(connections: map<string, Connection>, fingerprint: string, ip: string, perKey: int, perIp: int)
    requires Counted(connections, fingerprint, ip, {}, perKey, perIp)
    ensures perKey == |HoldersOfKey(Metas(connections), fingerprint)| && perIp == |HoldersOfIp(Metas(connections), ip)|
  {
    assert HoldersOfKey(Metas(connections), fingerprint) - {} == HoldersOfKey(Metas(connections), fingerprint);
    assert HoldersOfIp(Metas(connections), ip) - {} == HoldersOfIp(Metas(connections), ip);
  }

  /** A broadcast only closes connections: it keeps every cap. */
  lemma OfferedKeepsCaps(connections: map<string, Connection>, entry: Entry, failing: set<string>, caps: Caps)
    requires WithinCaps(Metas(connections), caps)
    ensures WithinCaps(Metas(Offered(connections, entry, failing, connections.Keys)), caps)
  {
    ClosingKeepsCaps(Metas(connections), Metas(Offered(connections, entry, failing, connections.Keys)), caps);
  }

  /** Opening a stream keeps every cap exactly when `canAccept` would still say yes. */
  lemma OpeningKeepsCapsIff(connections: map<string, Connection>, buffer: seq<Entry>, id: string, conn: Connection,
                            from: nat, caps: Caps)
    requires WithinCaps(Metas(connections), caps) && id !in connections
    ensures WithinCaps(Metas(connections[id := Replayed(conn, buffer, from)]), caps) <==>
            HasRoom(Metas(connections), caps, conn.meta)
  {
    SendAllAppends(Told(conn, buffer, from), Wanted(buffer, conn.filters, from));
    assert Metas(connections[id := Replayed(conn, buffer, from)]) == Metas(connections)[id := conn.meta];
    RegistrationKeepsCapsIff(Metas(connections), caps, id, conn.meta);
  }

  // --- what reaches a stream, told by the fields of events and filters --------------------------------

  /** A connection's turn in a broadcast: nothing is written if its filter withholds the event, and otherwise exactly
      the event. */
  ghost predicate Served(before: Connection, after: Connection, entry: Entry) {
    && after.filters == before.filters && after.createdAt == before.createdAt && after.meta == before.meta
    && after.sent == (if Withheld(entry.event, before.filters) then before.sent
                      else before.sent + [EventMessage(entry)])
    && after.lastEventId == (if Withheld(entry.event, before.filters) then before.lastEventId else entry.id)
  }

  /** After a broadcast: closed are exactly the connections the event was written to in vain. */
  ghost predicate AllServed(before: map<string, Connection>, after: map<string, Connection>, entry: Entry,
                            failing: set<string>) {
    && (forall c <- after :: c in before && Served(before[c], after[c], entry))
    && (forall c <- before :: c !in after <==> c in failing && !Withheld(entry.event, before[c].filters))
  }

  lemma OfferedServes(before: map<string, Connection>, entry: Entry, failing: set<string>)
    ensures AllServed(before, Offered(before, entry, failing, before.Keys), entry, failing)
  {
    forall c | c in before
      ensures Matches(entry.event, before[c].filters) <==> !Withheld(entry.event, before[c].filters)
    {
      MatchesUnlessWithheld(entry.event, before[c].filters);
    }
  }

  /** After a replay onto a new stream: the events on it are those of the buffer after `from` that the filter does not
      withhold, and a gap message names the id asked for and the least id there is. */
  ghost predicate Caught(sent: seq<Message>, filters: Filters, buffer: seq<Entry>, from: nat) {
    && (forall e :: EventMessage(e) in sent <==> e in buffer && e.id > from && !Withheld(e.event, filters))
    && (forall asked, least :: ReplayGap(asked, least) in sent ==>
          asked == from > 0 && least > asked + 1 && |buffer| > 0 && buffer[0].id == least)
    && (from > 0 && |buffer| > 0 && buffer[0].id > from + 1 ==> ReplayGap(from, buffer[0].id) in sent)
  }

  /** One of the sends of a replay fails: the gap message, or an event after `from` that the filter does not
      withhold. */
  ghost predicate SendFails(buffer: seq<Entry>, filters: Filters, from: nat, gapFails: bool, failing: set<nat>) {
    || (gapFails && from > 0 && |buffer| > 0 && buffer[0].id > from + 1)
    || exists e :: e in buffer && e.id > from && !Withheld(e.event, filters) && e.id in failing
  }

  lemma FailuresAreSends(buffer: seq<Entry>, filters: Filters, from: nat, failing: set<nat>)
    ensures SomeFail(Wanted(buffer, filters, from), failing) <==>
            exists e :: e in buffer && e.id > from && !Withheld(e.event, filters) && e.id in failing
  {
    var wanted := Wanted(buffer, filters, from);
    WantedExactly(buffer, filters, from);
    if SomeFail(wanted, failing) {
      var i :| 0 <= i < |wanted| && wanted[i].id in failing;
      MatchesUnlessWithheld(wanted[i].event, filters);
      assert wanted[i] in wanted;
    }
    if e :| e in buffer && e.id > from && !Withheld(e.event, filters) && e.id in failing {
      MatchesUnlessWithheld(e.event, filters);
      assert e in wanted;
    }
  }

  lemma ReplayCatchesUp(conn: Connection, buffer: seq<Entry>, from: nat)
    requires conn.sent == []
    ensures Caught(Replayed(conn, buffer, from).sent, conn.filters, buffer, from)
  {
    var wanted := Wanted(buffer, conn.filters, from);
    SendAllAppends(Told(conn, buffer, from), wanted);
    WantedExactly(buffer, conn.filters, from);
    var sent := Replayed(conn, buffer, from).sent;
    assert sent == Gap(buffer, from) + Events(wanted);
    EventsMembers(wanted);
    forall e ensures EventMessage(e) in sent <==> e in buffer && e.id > from && !Withheld(e.event, conn.filters) {
      MatchesUnlessWithheld(e.event, conn.filters);
    }
    if SendsGap(buffer, from) { assert Gap(buffer, from)[0] in sent; }
  }

  /** The id kept for a connection is that of the event it was sent last, or `asked` when it was sent none. */
  predicate NewestIs(conn: Connection, asked: int) {
    if conn.sent != [] && conn.sent[|conn.sent| - 1].EventMessage?
    then conn.lastEventId == conn.sent[|conn.sent| - 1].entry.id
    else conn.lastEventId == asked
  }

  /** The connection began as `begun` and, with a resume id, has caught up. */
  ghost predicate CaughtUp(conn: Connection, begun: Connection, buffer: seq<Entry>, from: Option<nat>) {
    && conn.filters == begun.filters && conn.createdAt == begun.createdAt && conn.meta == begun.meta
    && NewestIs(conn, begun.lastEventId)
    && if from.Some? then Caught(conn.sent, begun.filters, buffer, from.value) else conn.sent == []
  }

  lemma ReplayedIsCaughtUp(begun: Connection, buffer: seq<Entry>, from: nat)
    requires begun.sent == []
    ensures CaughtUp(Replayed(begun, buffer, from), begun, buffer, Some(from))
  {
    SendAllAppends(Told(begun, buffer, from), Wanted(buffer, begun.filters, from));
    ReplayCatchesUp(begun, buffer, from);
  }

  /** What opening a stream does, told by fields: the others stay as they are; the new one is closed exactly when a
      send fails, and is otherwise a fresh connection that has caught up. */
  ghost predicate Opened(before: map<string, Connection>, after: map<string, Connection>, id: string, begun: Connection,
                         buffer: seq<Entry>, from: Option<nat>, gapFails: bool, failing: set<nat>) {
    && after.Keys + {id} == before.Keys + {id}
    && (forall c <- before :: c != id ==> after[c] == before[c])
    && (id !in after <==> from.Some? && SendFails(buffer, begun.filters, from.value, gapFails, failing))
    && (id in after ==> CaughtUp(after[id], begun, buffer, from))
  }

  lemma ReplayOpens(before: map<string, Connection>, id: string, begun: Connection, buffer: seq<Entry>, from: nat,
                    gapFails: bool, failing: set<nat>)
    requires begun.sent == []
    ensures Opened(before, AfterReplay(before[id := begun], id, buffer, from, gapFails, failing), id, begun, buffer,
                   Some(from), gapFails, failing)
  {
    FailuresAreSends(buffer, begun.filters, from, failing);
    ReplayedIsCaughtUp(begun, buffer, from);
  }

  lemma PlainOpens(before: map<string, Connection>, id: string, begun: Connection, buffer: seq<Entry>, gapFails: bool,
                   failing: set<nat>)
    requires begun.sent == []
    ensures Opened(before, before[id := begun], id, begun, buffer, None, gapFails, failing)
  {
  }

  lemma EventsMembers(entries: seq<Entry>)
    ensures forall e :: EventMessage(e) in Events(entries) <==> e in entries
    ensures forall a, b :: ReplayGap(a, b) !in Events(entries)
  {
    forall e | e in entries ensures EventMessage(e) in Events(entries) {
      var i :| 0 <= i < |entries| && entries[i] == e;
      assert Events(entries)[i] == EventMessage(e);
    }
  }

  class SSEManager {
    const maxBufferSize: nat
    const bufferTtlMs: int
    const maxConnectionAgeMs: int
    const caps: Caps
    var connections: map<string, Connection>
    var eventBuffer: seq<Entry>
    var nextEventId: nat
    var totalEventsSent: nat
    ghost var history: seq<Tick>

    /** The buffer is what incremental pruning of the whole history leaves. */
    ghost predicate Valid()
      reads this
    {
      && eventBuffer == BufferAfter(history, maxBufferSize, bufferTtlMs)
      && nextEventId == |history| + 1
    }

    constructor (maxBufferSize: nat, bufferTtlMs: int, maxConnectionAgeMs: int, caps: Caps)
      ensures Valid() && history == [] && connections == map[] && totalEventsSent == 0
      ensures this.maxBufferSize == maxBufferSize && this.bufferTtlMs == bufferTtlMs
      ensures this.maxConnectionAgeMs == maxConnectionAgeMs && this.caps == caps
    {
      this.maxBufferSize, this.bufferTtlMs, this.maxConnectionAgeMs, this.caps :=
        maxBufferSize, bufferTtlMs, maxConnectionAgeMs, caps;
      connections, eventBuffer, nextEventId, totalEventsSent := map[], [], 1, 0;
      history := [];
    }

    /** Decides on a request without registering anything. */
    method CanAccept(fingerprint: string, ip: string) returns (decision: Decision)
      ensures decision == Accept <==> HasRoom(Metas(connections), caps, Meta(fingerprint, ip))
      ensures decision.Deny? ==> decision.retryAfterSeconds == 30
      ensures decision.Deny? ==> (decision.reason == Global <==> |connections| >= caps.total)
      ensures decision.Deny? && |connections| < caps.total ==>
                (decision.reason == PerKey <==> |HoldersOfKey(Metas(connections), fingerprint)| >= caps.perKey)
    {
      SameSize(connections);
      if |connections| >= caps.total {
        return Deny(Global, RETRY_AFTER_SECONDS);
      }
      var perKey, perIp := 0, 0;
      var pending := connections.Keys;
      NobodyCounted(connections, fingerprint, ip);
      while pending != {}
        invariant Counted(connections, fingerprint, ip, pending, perKey, perIp)
        decreases pending
      {
        var c :| c in pending;
        CountOne(connections, fingerprint, ip, pending, perKey, perIp, c);
        pending := pending - {c};
        if connections[c].meta.fingerprint == fingerprint {
          perKey := perKey + 1;
        }
        if connections[c].meta.ip == ip {
          perIp := perIp + 1;
        }
      }
      EverybodyCounted(connections, fingerprint, ip, perKey, perIp);
      if perKey >= caps.perKey {
        return Deny(PerKey, RETRY_AFTER_SECONDS);
      }
      if perIp >= caps.perIp {
        return Deny(PerIp, RETRY_AFTER_SECONDS);
      }
      decision := Accept;
    }

    /** Opens a stream; with a `Last-Event-ID` the missed events are replayed onto it first. `gapFails` and
        `failing` say which of the sends fail. */
    method AddConnection(id: string, filters: Filters, lastEventId: Option<ResumeId>, meta: Meta, now: int,
                         gapFails: bool, failing: set<nat>)
      requires Valid()
      modifies this`connections, this`totalEventsSent
      ensures Valid()
      ensures var begun := old(connections)[id := Connection(filters, OrZero(lastEventId), now, meta, [])];
              connections == if lastEventId.None? then begun
                             else AfterReplay(begun, id, eventBuffer, Position(lastEventId.value, |history|),
                                              gapFails, failing)
      ensures var asked := match lastEventId case Some(Number(n)) => n case _ => 0;
              Opened(old(connections), connections, id, Connection(filters, asked, now, meta, []),
                     eventBuffer,
                     if lastEventId.None? then None else Some(Position(lastEventId.value, |history|)),
                     gapFails, failing)
      ensures totalEventsSent ==
              old(totalEventsSent) +
              if lastEventId.None? then 0
              else |Delivered(Wanted(eventBuffer, filters, Position(lastEventId.value, |history|)), failing)|
    {
      ghost var begun := Connection(filters, OrZero(lastEventId), now, meta, []);
      connections := connections[id := Connection(filters, OrZero(lastEventId), now, meta, [])];
      if lastEventId.None? {
        PlainOpens(old(connections), id, begun, eventBuffer, gapFails, failing);
      } else {
        PositionActsTheSame(history, maxBufferSize, bufferTtlMs, lastEventId.value);
        ReplayOpens(old(connections), id, begun, eventBuffer, Position(lastEventId.value, |history|), gapFails,
                    failing);
        ReplayEvents(id, lastEventId.value, Position(lastEventId.value, |history|), gapFails, failing);
      }
    }

    /** `from` is the number that the parsed id stands for. */
    method ReplayEvents(id: string, fromEventId: ResumeId, ghost from: nat, gapFails: bool, failing: set<nat>)
      requires id in connections && ActsAs(fromEventId, from, eventBuffer)
      modifies this`connections, this`totalEventsSent
      ensures connections == AfterReplay(old(connections), id, eventBuffer, from, gapFails, failing)
      ensures totalEventsSent ==
              old(totalEventsSent) + |Delivered(Wanted(eventBuffer, old(connections)[id].filters, from), failing)|
    {
      var filters := connections[id].filters;
      ReplayBegins(connections, id, eventBuffer, from, gapFails, failing);
      if fromEventId.Number? && fromEventId.value > 0 && |eventBuffer| > 0 {
        if eventBuffer[0].id > fromEventId.value + 1 {
          if gapFails {
            CloseConnection(id);
          } else {
            var conn := connections[id];
            var gap := ReplayGap(fromEventId.value, eventBuffer[0].id);
            connections := connections[id := conn.(sent := conn.sent + [gap])];
          }
        }
      }
      for i := 0 to |eventBuffer|
        invariant Sends(connections, totalEventsSent - old(totalEventsSent)) ==
                  ReplayedUpTo(old(connections), id, eventBuffer, from, gapFails, failing, i)
      {
        var entry := eventBuffer[i];
        ReplayStep(old(connections), id, eventBuffer, from, gapFails, failing, i);
        if Exceeds(entry.id, fromEventId) && Matches(entry.event, filters) {
          SendEvent(id, entry, entry.id !in failing);
        }
      }
      ReplayEnds(old(connections), id, eventBuffer, from, gapFails, failing);
    }

    /** A send that fails closes the connection. */
    method SendEvent(id: string, entry: Entry, ok: bool)
      modifies this`connections, this`totalEventsSent
      ensures connections == Sent(old(connections), id, entry, ok)
      ensures totalEventsSent == old(totalEventsSent) + if ok then 1 else 0
    {
      if ok {
        if id in connections {
          var conn := connections[id];
          connections := connections[id := conn.(sent := conn.sent + [EventMessage(entry)], lastEventId := entry.id)];
        }
        totalEventsSent := totalEventsSent + 1;
      } else {
        CloseConnection(id);
      }
    }

    /** Server-side eviction. */
    method CloseConnection(id: string)
      modifies this`connections
      ensures connections == old(connections) - {id}
    {
      connections := connections - {id};
    }

    /** Numbers, buffers and prunes the event, then sends it to every matching connection. A connection in
        `failing` is one whose send fails: it gets nothing and is closed. */
    method Broadcast(event: Event, now: int, failing: set<string>)
      requires Valid()
      modifies this`connections, this`eventBuffer, this`nextEventId, this`totalEventsSent, this`history
      ensures Valid() && history == old(history) + [Tick(event, now)]
      ensures connections == Offered(old(connections), Entry(old(nextEventId), event), failing, old(connections.Keys))
      ensures AllServed(old(connections), connections, Entry(old(nextEventId), event), failing)
      ensures totalEventsSent == old(totalEventsSent) + |Audience(old(connections), event) - failing|
    {
      OfferedServes(connections, Entry(nextEventId, event), failing);
      var entry := Entry(nextEventId, event);
      nextEventId := nextEventId + 1;
      eventBuffer := eventBuffer + [entry];
      PruneEventBuffer(now);
      history := history + [Tick(event, now)];
      assert history[..|history| - 1] == old(history);
      SendToMatching(entry, failing);
    }

    /** The loop of `broadcast` over the live connections, in whatever order the map yields them. */
    method SendToMatching(entry: Entry, failing: set<string>)
      modifies this`connections, this`totalEventsSent
      ensures connections == Offered(old(connections), entry, failing, old(connections.Keys))
      ensures totalEventsSent == old(totalEventsSent) + |Audience(old(connections), entry.event) - failing|
    {
      ghost var before := connections;
      var pending := connections.Keys;
      NobodyYet(before, entry, failing);
      while pending != {}
        invariant Progress(before, entry, failing, pending, connections, totalEventsSent - old(totalEventsSent))
        decreases pending
      {
        var c :| c in pending;
        OneTurn(before, entry, failing, pending, connections, totalEventsSent - old(totalEventsSent), c);
        pending := pending - {c};
        if Matches(entry.event, connections[c].filters) {
          SendEvent(c, entry, c !in failing);
        }
      }
      EverybodyServed(before, entry, failing, connections, totalEventsSent - old(totalEventsSent));
    }

    /** Of the newest `maxBufferSize` entries exactly those younger than the TTL survive; when timestamps ascend,
        they are the longest suffix of the buffer within both bounds. */
    method PruneEventBuffer(now: int)
      modifies this`eventBuffer
      ensures eventBuffer == Prune(old(eventBuffer), maxBufferSize, bufferTtlMs, now)
      ensures Pruned(old(eventBuffer), eventBuffer, maxBufferSize, now - bufferTtlMs)
    {
      PruneIsPruned(eventBuffer, maxBufferSize, bufferTtlMs, now);
      if |eventBuffer| > maxBufferSize {
        eventBuffer := SliceLast(eventBuffer, maxBufferSize);
      }
      eventBuffer := Fresh(eventBuffer, now - bufferTtlMs);
    }

    /** One heartbeat tick: exactly the connections past the age limit and those whose ping fails are closed. */
    method HeartbeatSweep(now: int, failing: set<string>)
      modifies this`connections
      ensures connections == map c <- old(connections) |
                now - old(connections)[c].createdAt <= maxConnectionAgeMs && c !in failing :: old(connections)[c]
    {
      var before := connections;
      var pending := connections.Keys;
      while pending != {}
        invariant pending <= before.Keys
        invariant connections == map c <- before |
                    c in pending || (now - before[c].createdAt <= maxConnectionAgeMs && c !in failing) :: before[c]
        decreases pending
      {
        var c :| c in pending;
        pending := pending - {c};
        if now - before[c].createdAt > maxConnectionAgeMs {
          CloseConnection(c);
        } else if c in failing {
          CloseConnection(c);
        }
      }
    }
  }
}

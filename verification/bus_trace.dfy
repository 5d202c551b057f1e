/** What a program of emits, transactions, throws and catches does, told without any buffer: which emits
    took place, in which order, inside which transactions, and which transactions threw. */
module BusTrace {
  datatype Event = Event(name: string, payload: int)

  /** A subscription; `bypass` is the `ignoreTransaction` option. */
  datatype Listener = Listener(name: string, bypass: bool)

  /** A run of code that uses the bus. `reactions[i]` is what listener `i` does when this emit reaches it,
      if it is a bypass listener; normal listeners do not use the bus. */
  datatype Program =
    | Skip
    | Throw
    | Emit(event: Event, reactions: seq<Program>)
    | Transaction(body: Program)
    | Sequence(first: Program, second: Program)
    | TryCatch(body: Program, handler: Program)

  /** One emit that took place, with the transactions around it, outermost first. */
  datatype Occurrence = Occurrence(event: Event, enclosing: seq<nat>)

  /** `immediate` lists the emits in the order in which an immediate listener in a given slot is called,
      `deferred` in the order in which a deferred one must be: inside a transaction, the order in which the
      emit calls return. `failed` are the transactions that threw; transactions are numbered as they start. */
  datatype Trace = Trace(immediate: seq<Occurrence>, deferred: seq<Occurrence>, failed: set<nat>, next: nat,
                         threw: bool)

  function Then(a: Trace, b: Trace): Trace {
    Trace(a.immediate + b.immediate, a.deferred + b.deferred, a.failed + b.failed, b.next, b.threw)
  }

  function Exec(p: Program, listeners: seq<Listener>, slot: nat, enclosing: seq<nat>, next: nat): Trace
    decreases p, 1, 0
  {
    match p
    case Skip => Trace([], [], {}, next, false)
    case Throw => Trace([], [], {}, next, true)
    case Emit(event, reactions) =>
      var r := Reactions(p, listeners, slot, enclosing, next, |listeners|);
      var o := Occurrence(event, enclosing);
      if enclosing == [] then r else r.(deferred := r.deferred + [o])
    case Transaction(body) =>
      var t := Exec(body, listeners, slot, enclosing + [next], next + 1);
      if t.threw then t.(failed := t.failed + {next}) else t
    case Sequence(first, second) =>
      var t := Exec(first, listeners, slot, enclosing, next);
      if t.threw then t else Then(t, Exec(second, listeners, slot, enclosing, t.next))
    case TryCatch(body, handler) =>
      var t := Exec(body, listeners, slot, enclosing, next);
      if !t.threw then t else Then(t, Exec(handler, listeners, slot, enclosing, t.next))
  }

  /** The first `n` listeners reached by an emit: the call of the listener in `slot`, and what the bypass
      listeners do in reaction. What a reaction throws is swallowed. */
  function Reactions(p: Program, listeners: seq<Listener>, slot: nat, enclosing: seq<nat>, next: nat,
                     n: nat): (t: Trace)
    requires p.Emit? && n <= |listeners|
    ensures !t.threw
    decreases p, 0, n
  {
    if n == 0 then Trace([], [], {}, next, false)
    else
      var before := Reactions(p, listeners, slot, enclosing, next, n - 1);
      var here := Reached(p, slot, enclosing, n - 1, before);
      if Reacts(p, listeners, n - 1) then
        Then(here, Exec(p.reactions[n - 1], listeners, slot, enclosing, before.next)).(threw := false)
      else here
  }

  predicate Reacts(p: Program, listeners: seq<Listener>, i: nat)
    requires p.Emit? && i < |listeners|
  {
    listeners[i].bypass && listeners[i].name == p.event.name && i < |p.reactions|
  }

  /** The emit reaches listener `i`. */
  function Reached(p: Program, slot: nat, enclosing: seq<nat>, i: nat, t: Trace): Trace
    requires p.Emit?
  {
    var o := Occurrence(p.event, enclosing);
    if i != slot then t
    else t.(immediate := t.immediate + [o], deferred := if enclosing == [] then t.deferred + [o] else t.deferred)
  }

  /** No transaction around the emit threw. */
  predicate Live(o: Occurrence, failed: set<nat>) {
    forall id <- o.enclosing :: id !in failed
  }

  /** The events whose every enclosing transaction returned normally. */
  function Committed(occurrences: seq<Occurrence>, failed: set<nat>): seq<Event> {
    if occurrences == [] then []
    else
      var last := occurrences[|occurrences| - 1];
      Committed(occurrences[..|occurrences| - 1], failed) + if Live(last, failed) then [last.event] else []
  }

  function Named(events: seq<Event>, name: string): seq<Event> {
    if events == [] then []
    else
      var last := events[|events| - 1];
      Named(events[..|events| - 1], name) + if last.name == name then [last] else []
  }

  // --- which transactions a trace can mention ---------------------------------------------------

  ghost predicate Older(enclosing: seq<nat>, next: nat) {
    forall id <- enclosing :: id < next
  }

  /** Every emit lies inside `enclosing` and, beyond that, only in transactions started in this trace. */
  ghost predicate Inside(occurrences: seq<Occurrence>, enclosing: seq<nat>, lo: nat, hi: nat) {
    forall i :: 0 <= i < |occurrences| ==> InsideOne(occurrences[i], enclosing, lo, hi)
  }

  ghost predicate InsideOne(o: Occurrence, enclosing: seq<nat>, lo: nat, hi: nat) {
    (forall id <- o.enclosing :: id in enclosing || lo <= id < hi) && forall id <- enclosing :: id in o.enclosing
  }

  ghost predicate Scoped(t: Trace, enclosing: seq<nat>, next: nat) {
    && next <= t.next
    && (forall id <- t.failed :: next <= id < t.next)
    && Inside(t.immediate, enclosing, next, t.next)
    && Inside(t.deferred, enclosing, next, t.next)
  }

  lemma ThenScoped(a: Trace, b: Trace, enclosing: seq<nat>, next: nat)
    requires Scoped(a, enclosing, next) && Scoped(b, enclosing, a.next)
    ensures Scoped(Then(a, b), enclosing, next)
  {
  }

  lemma {:induction false} ExecScoped(p: Program, listeners: seq<Listener>, slot: nat, enclosing: seq<nat>, next: nat)
    ensures Scoped(Exec(p, listeners, slot, enclosing, next), enclosing, next)
    decreases p, 1, 0
  {
    match p
    case Skip =>
    case Throw =>
    case Emit(event, reactions) =>
      ReactionsScoped(p, listeners, slot, enclosing, next, |listeners|);
    case Transaction(body) =>
      ExecScoped(body, listeners, slot, enclosing + [next], next + 1);
      InnerScope(Exec(body, listeners, slot, enclosing + [next], next + 1), enclosing, next);
    case Sequence(first, second) =>
      var t := Exec(first, listeners, slot, enclosing, next);
      ExecScoped(first, listeners, slot, enclosing, next);
      ExecScoped(second, listeners, slot, enclosing, t.next);
      ThenScoped(t, Exec(second, listeners, slot, enclosing, t.next), enclosing, next);
    case TryCatch(body, handler) =>
      var t := Exec(body, listeners, slot, enclosing, next);
      ExecScoped(body, listeners, slot, enclosing, next);
      ExecScoped(handler, listeners, slot, enclosing, t.next);
      ThenScoped(t, Exec(handler, listeners, slot, enclosing, t.next), enclosing, next);
  }

  lemma InnerScope(t: Trace, enclosing: seq<nat>, next: nat)
    requires Scoped(t, enclosing + [next], next + 1)
    ensures Scoped(t, enclosing, next)
    ensures Scoped(t.(failed := t.failed + {next}), enclosing, next)
  {
    forall o: Occurrence | InsideOne(o, enclosing + [next], next + 1, t.next)
      ensures InsideOne(o, enclosing, next, t.next)
    {
      forall id | id in o.enclosing ensures id in enclosing || next <= id < t.next {
        assert id in enclosing + [next] || next + 1 <= id < t.next;
      }
    }
  }

  lemma {:induction false} ReactionsScoped(p: Program, listeners: seq<Listener>, slot: nat, enclosing: seq<nat>,
                                           next: nat, n: nat)
    requires p.Emit? && n <= |listeners|
    ensures Scoped(Reactions(p, listeners, slot, enclosing, next, n), enclosing, next)
    decreases p, 0, n
  {
    if n > 0 {
      var before := Reactions(p, listeners, slot, enclosing, next, n - 1);
      ReactionsScoped(p, listeners, slot, enclosing, next, n - 1);
      assert Scoped(Reached(p, slot, enclosing, n - 1, before), enclosing, next);
      if Reacts(p, listeners, n - 1) {
        ExecScoped(p.reactions[n - 1], listeners, slot, enclosing, before.next);
        ThenScoped(Reached(p, slot, enclosing, n - 1, before),
                   Exec(p.reactions[n - 1], listeners, slot, enclosing, before.next), enclosing, next);
      }
    }
  }

  // --- committed events, piece by piece ---------------------------------------------------------

  lemma {:induction false} CommittedConcat(a: seq<Occurrence>, b: seq<Occurrence>, failed: set<nat>)
    ensures Committed(a + b, failed) == Committed(a, failed) + Committed(b, failed)
    decreases |b|
  {
    if b == [] {
      assert a + b == a;
    } else {
      CommittedConcat(a, b[..|b| - 1], failed);
      assert (a + b)[..|a + b| - 1] == a + b[..|b| - 1];
    }
  }

  lemma {:induction false} NamedConcat(a: seq<Event>, b: seq<Event>, name: string)
    ensures Named(a + b, name) == Named(a, name) + Named(b, name)
    decreases |b|
  {
    if b == [] {
      assert a + b == a;
    } else {
      NamedConcat(a, b[..|b| - 1], name);
      assert (a + b)[..|a + b| - 1] == a + b[..|b| - 1];
    }
  }

  /** Failures of other, disjoint stretches do not matter. */
  lemma {:induction false} OtherFailures(occurrences: seq<Occurrence>, failed: set<nat>, others: set<nat>)
    requires forall i :: 0 <= i < |occurrences| ==> forall id <- others :: id !in occurrences[i].enclosing
    ensures Committed(occurrences, failed + others) == Committed(occurrences, failed)
  {
    if occurrences != [] {
      OtherFailures(occurrences[..|occurrences| - 1], failed, others);
      var last := occurrences[|occurrences| - 1];
      assert Live(last, failed + others) <==> Live(last, failed);
    }
  }

  lemma {:induction false} AllRolledBack(occurrences: seq<Occurrence>, failed: set<nat>, id: nat)
    requires id in failed && forall i :: 0 <= i < |occurrences| ==> id in occurrences[i].enclosing
    ensures Committed(occurrences, failed) == []
  {
    if occurrences != [] {
      AllRolledBack(occurrences[..|occurrences| - 1], failed, id);
    }
  }

  lemma ThenCommits(a: Trace, b: Trace, enclosing: seq<nat>, next: nat)
    requires Older(enclosing, next) && Scoped(a, enclosing, next) && Scoped(b, enclosing, a.next)
    ensures Committed(Then(a, b).deferred, Then(a, b).failed) ==
            Committed(a.deferred, a.failed) + Committed(b.deferred, b.failed)
  {
    var failed := a.failed + b.failed;
    CommittedConcat(a.deferred, b.deferred, failed);
    forall i, id | 0 <= i < |a.deferred| && id in b.failed ensures id !in a.deferred[i].enclosing {
      assert InsideOne(a.deferred[i], enclosing, next, a.next);
    }
    OtherFailures(a.deferred, a.failed, b.failed);
    forall i, id | 0 <= i < |b.deferred| && id in a.failed ensures id !in b.deferred[i].enclosing {
      assert InsideOne(b.deferred[i], enclosing, a.next, b.next);
    }
    assert failed == b.failed + a.failed;
    OtherFailures(b.deferred, b.failed, a.failed);
  }

  /** A transaction that throws leaves nothing behind, however deep its inner ones committed; one that
      returns passes on exactly what its body committed. */
  lemma TransactionIsAtomic(body: Program, listeners: seq<Listener>, slot: nat, enclosing: seq<nat>, next: nat)
    requires Older(enclosing, next)
    ensures var t := Exec(Transaction(body), listeners, slot, enclosing, next);
            var inner := Exec(body, listeners, slot, enclosing + [next], next + 1);
            Committed(t.deferred, t.failed) == if inner.threw then [] else Committed(inner.deferred, inner.failed)
  {
    var inner := Exec(body, listeners, slot, enclosing + [next], next + 1);
    if inner.threw {
      ExecScoped(body, listeners, slot, enclosing + [next], next + 1);
      forall i | 0 <= i < |inner.deferred| ensures next in inner.deferred[i].enclosing {
        assert InsideOne(inner.deferred[i], enclosing + [next], next + 1, inner.next);
        assert next in enclosing + [next];
      }
      AllRolledBack(inner.deferred, inner.failed + {next}, next);
    }
  }

  /** Deferral only reorders: the emits an immediate and a deferred listener can see are the same. */
  lemma {:induction false} SameEmits(p: Program, listeners: seq<Listener>, slot: nat, enclosing: seq<nat>, next: nat)
    requires slot < |listeners|
    ensures var t := Exec(p, listeners, slot, enclosing, next); multiset(t.immediate) == multiset(t.deferred)
    decreases p, 1, 0
  {
    match p
    case Skip =>
    case Throw =>
    case Emit(event, reactions) =>
      SameReactions(p, listeners, slot, enclosing, next, |listeners|);
    case Transaction(body) =>
      SameEmits(body, listeners, slot, enclosing + [next], next + 1);
    case Sequence(first, second) =>
      SameEmits(first, listeners, slot, enclosing, next);
      SameEmits(second, listeners, slot, enclosing, Exec(first, listeners, slot, enclosing, next).next);
    case TryCatch(body, handler) =>
      SameEmits(body, listeners, slot, enclosing, next);
      SameEmits(handler, listeners, slot, enclosing, Exec(body, listeners, slot, enclosing, next).next);
  }

  lemma {:induction false} SameReactions(p: Program, listeners: seq<Listener>, slot: nat, enclosing: seq<nat>,
                                         next: nat, n: nat)
    requires p.Emit? && n <= |listeners| && slot < |listeners|
    ensures var t := Reactions(p, listeners, slot, enclosing, next, n);
            multiset(t.immediate) == multiset(t.deferred) +
              if slot < n && enclosing != [] then multiset{Occurrence(p.event, enclosing)} else multiset{}
    decreases p, 0, n
  {
    if n > 0 {
      SameReactions(p, listeners, slot, enclosing, next, n - 1);
      if Reacts(p, listeners, n - 1) {
        SameEmits(p.reactions[n - 1], listeners, slot, enclosing,
                  Reactions(p, listeners, slot, enclosing, next, n - 1).next);
      }
    }
  }

  /** Inside a transaction the events of a reaction commit before the event that caused it, although that one was
      stamped first. */
  lemma ReactionCommitsFirst(cause: Event, effect: Event, next: nat)
    ensures var bypass := Listener(cause.name, true);
            var t := Exec(Transaction(Emit(cause, [Emit(effect, [])])), [bypass], 0, [], next);
            Committed(t.deferred, t.failed) == [effect, cause]
  {
    var listeners := [Listener(cause.name, true)];
    var inner, outer := Emit(effect, []), Emit(cause, [Emit(effect, [])]);
    var c, e := Occurrence(cause, [next]), Occurrence(effect, [next]);
    assert [] + [next] == [next];
    assert Reactions(inner, listeners, 0, [next], next + 1, 0).deferred == [];
    assert Exec(inner, listeners, 0, [next], next + 1).deferred == [e];
    assert Reactions(outer, listeners, 0, [next], next + 1, 0).deferred == [];
    assert Reactions(outer, listeners, 0, [next], next + 1, 1).deferred == [e];
    assert Exec(outer, listeners, 0, [next], next + 1).deferred == [e, c];
    assert Exec(inner, listeners, 0, [next], next + 1).failed == {};
    assert Exec(outer, listeners, 0, [next], next + 1).failed == {};
    assert !Exec(outer, listeners, 0, [next], next + 1).threw;
    assert [e, c][..1] == [e] && [e][..0] == [];
    assert Committed([e], {}) == [effect];
    assert Committed([e, c], {}) == [effect] + [cause];
  }

  // --- which reactions run, and which do not --------------------------------------------------------

  /** Two lists of reactions agree on the bypass listeners of an event name. */
  predicate SameForBypass(listeners: seq<Listener>, name: string, a: seq<Program>, b: seq<Program>) {
    && |a| == |b|
    && forall i :: 0 <= i < |listeners| && i < |a| && listeners[i].bypass && listeners[i].name == name ==> a[i] == b[i]
  }

  lemma {:induction false} OnlyBypassReacts(event: Event, a: seq<Program>, b: seq<Program>, listeners: seq<Listener>,
                                            slot: nat, enclosing: seq<nat>, next: nat, n: nat)
    requires n <= |listeners| && SameForBypass(listeners, event.name, a, b)
    ensures Reactions(Emit(event, a), listeners, slot, enclosing, next, n) ==
            Reactions(Emit(event, b), listeners, slot, enclosing, next, n)
    decreases n
  {
    if n > 0 { OnlyBypassReacts(event, a, b, listeners, slot, enclosing, next, n - 1); }
  }

  /** What a listener would do in reaction makes no difference to an emit, unless it is a bypass listener of the
      event's name. */
  lemma OtherReactionsDoNotRun(event: Event, reactions: seq<Program>, i: nat, other: Program, listeners: seq<Listener>,
                               slot: nat, enclosing: seq<nat>, next: nat)
    requires i < |reactions| && !(i < |listeners| && listeners[i].bypass && listeners[i].name == event.name)
    ensures Exec(Emit(event, reactions[i := other]), listeners, slot, enclosing, next) ==
            Exec(Emit(event, reactions), listeners, slot, enclosing, next)
  {
    OnlyBypassReacts(event, reactions[i := other], reactions, listeners, slot, enclosing, next, |listeners|);
  }

  /** There is no bypass listener of the name among the listeners from `lo` up to `hi`. */
  predicate NoBypass(listeners: seq<Listener>, name: string, lo: nat, hi: nat) {
    forall i :: lo <= i < hi && i < |listeners| && listeners[i].bypass ==> listeners[i].name != name
  }

  lemma {:induction false} NothingReacts(p: Program, listeners: seq<Listener>, slot: nat, enclosing: seq<nat>,
                                         next: nat, n: nat)
    requires p.Emit? && n <= |listeners| && NoBypass(listeners, p.event.name, 0, n)
    ensures var here := if slot < n then [Occurrence(p.event, enclosing)] else [];
            Reactions(p, listeners, slot, enclosing, next, n) ==
            Trace(here, if enclosing == [] then here else [], {}, next, false)
    decreases n
  {
    if n > 0 { NothingReacts(p, listeners, slot, enclosing, next, n - 1); }
  }

  /** Without a bypass listener of its name an emit is just itself. */
  lemma EmitAlone(p: Program, listeners: seq<Listener>, slot: nat, enclosing: seq<nat>, next: nat)
    requires p.Emit? && slot < |listeners| && NoBypass(listeners, p.event.name, 0, |listeners|)
    ensures var o := Occurrence(p.event, enclosing);
            Exec(p, listeners, slot, enclosing, next) == Trace([o], [o], {}, next, false)
  {
    NothingReacts(p, listeners, slot, enclosing, next, |listeners|);
  }

  /** `part` is a stretch of `whole`. */
  ghost predicate Within(part: seq<Occurrence>, whole: seq<Occurrence>) {
    exists k: nat :: StandsAt(part, whole, k)
  }

  predicate StandsAt(part: seq<Occurrence>, whole: seq<Occurrence>, k: nat) {
    k + |part| <= |whole| && whole[k..k + |part|] == part
  }

  lemma WithinLonger(part: seq<Occurrence>, whole: seq<Occurrence>, more: seq<Occurrence>)
    requires Within(part, whole)
    ensures Within(part, whole + more)
  {
    var k: nat :| StandsAt(part, whole, k);
    assert StandsAt(part, whole + more, k);
  }

  lemma WithinAtEnd(part: seq<Occurrence>, front: seq<Occurrence>)
    ensures Within(part, front + part)
  {
    assert StandsAt(part, front + part, |front|);
  }

  /** Everything a reaction does is part of what the emit does. */
  ghost predicate PartOf(part: Trace, whole: Trace) {
    Within(part.immediate, whole.immediate) && Within(part.deferred, whole.deferred) && part.failed <= whole.failed
  }

  lemma {:induction false} ReactionRuns(p: Program, i: nat, listeners: seq<Listener>, slot: nat, enclosing: seq<nat>,
                                        next: nat, n: nat) returns (start: nat)
    requires p.Emit? && i < n <= |listeners| && i < |p.reactions|
    requires listeners[i].bypass && listeners[i].name == p.event.name
    ensures PartOf(Exec(p.reactions[i], listeners, slot, enclosing, start),
                   Reactions(p, listeners, slot, enclosing, next, n))
    decreases n
  {
    var before := Reactions(p, listeners, slot, enclosing, next, n - 1);
    var here := Reached(p, slot, enclosing, n - 1, before);
    if i == n - 1 {
      start := before.next;
      var sub := Exec(p.reactions[i], listeners, slot, enclosing, start);
      WithinAtEnd(sub.immediate, here.immediate);
      WithinAtEnd(sub.deferred, here.deferred);
    } else {
      start := ReactionRuns(p, i, listeners, slot, enclosing, next, n - 1);
      OneMoreReached(p, Exec(p.reactions[i], listeners, slot, enclosing, start), before, listeners, slot, enclosing,
                     n - 1);
    }
  }

  lemma {:induction false} OneMoreReached(p: Program, part: Trace, before: Trace, listeners: seq<Listener>, slot: nat,
                                          enclosing: seq<nat>, i: nat)
    requires p.Emit? && i < |listeners| && PartOf(part, before)
    ensures PartOf(part, Reached(p, slot, enclosing, i, before))
    ensures Reacts(p, listeners, i) ==>
              PartOf(part, Then(Reached(p, slot, enclosing, i, before),
                                Exec(p.reactions[i], listeners, slot, enclosing, before.next)).(threw := false))
  {
    var o := Occurrence(p.event, enclosing);
    var here := Reached(p, slot, enclosing, i, before);
    WithinLonger(part.immediate, before.immediate, [o]);
    WithinLonger(part.deferred, before.deferred, [o]);
    if Reacts(p, listeners, i) {
      var sub := Exec(p.reactions[i], listeners, slot, enclosing, before.next);
      WithinLonger(part.immediate, here.immediate, sub.immediate);
      WithinLonger(part.deferred, here.deferred, sub.deferred);
    }
  }

  /** Inside and outside transactions: what every bypass listener of the event's name does in reaction does happen,
      all of it, as part of the emit. */
  lemma BypassReactionsRun(p: Program, i: nat, listeners: seq<Listener>, slot: nat, enclosing: seq<nat>, next: nat)
    returns (start: nat)
    requires p.Emit? && i < |listeners| && i < |p.reactions|
    requires listeners[i].bypass && listeners[i].name == p.event.name
    ensures PartOf(Exec(p.reactions[i], listeners, slot, enclosing, start), Exec(p, listeners, slot, enclosing, next))
    ensures !Exec(p, listeners, slot, enclosing, next).threw
  {
    start := ReactionRuns(p, i, listeners, slot, enclosing, next, |listeners|);
    WithinLonger(Exec(p.reactions[i], listeners, slot, enclosing, start).deferred,
                 Reactions(p, listeners, slot, enclosing, next, |listeners|).deferred,
                 [Occurrence(p.event, enclosing)]);
  }

  /** A listener is called before the reactions of the bypass listeners from its own slot on, and after those of the
      earlier ones. */
  lemma {:induction false} CalledInSlotOrder(p: Program, listeners: seq<Listener>, slot: nat, enclosing: seq<nat>,
                                             next: nat, n: nat)
    requires p.Emit? && slot < n <= |listeners|
    ensures var t := Reactions(p, listeners, slot, enclosing, next, n);
            && (NoBypass(listeners, p.event.name, 0, slot) ==>
                  t.immediate != [] && t.immediate[0] == Occurrence(p.event, enclosing))
            && (NoBypass(listeners, p.event.name, slot, n) ==>
                  t.immediate != [] && t.immediate[|t.immediate| - 1] == Occurrence(p.event, enclosing))
    decreases n
  {
    if slot < n - 1 {
      CalledInSlotOrder(p, listeners, slot, enclosing, next, n - 1);
    } else if NoBypass(listeners, p.event.name, 0, slot) {
      NothingReacts(p, listeners, slot, enclosing, next, slot);
    }
  }

  // --- control flow -----------------------------------------------------------------------------------

  lemma ThenAssociates(a: Trace, b: Trace, c: Trace)
    ensures Then(Then(a, b), c) == Then(a, Then(b, c))
  {
  }

  lemma NothingThen(a: Trace, next: nat, threw: bool)
    ensures Then(Trace([], [], {}, next, threw), a) == a
    ensures Then(a, Trace([], [], {}, a.next, threw)) == a.(threw := threw)
  {
  }

  /** What a throw does to the steps around it: steps may be grouped at will, a step that does nothing may be left out,
      nothing runs after a throw, and what came before it stays. */
  lemma ThrowLaws(p: Program, q: Program, r: Program, listeners: seq<Listener>, slot: nat, enclosing: seq<nat>,
                  next: nat)
    ensures Exec(Sequence(Sequence(p, q), r), listeners, slot, enclosing, next) ==
            Exec(Sequence(p, Sequence(q, r)), listeners, slot, enclosing, next)
    ensures Exec(Sequence(Throw, p), listeners, slot, enclosing, next) == Exec(Throw, listeners, slot, enclosing, next)
    ensures Exec(Sequence(Skip, p), listeners, slot, enclosing, next) == Exec(p, listeners, slot, enclosing, next)
    ensures Exec(Sequence(p, Skip), listeners, slot, enclosing, next) == Exec(p, listeners, slot, enclosing, next)
    ensures Exec(Sequence(p, Throw), listeners, slot, enclosing, next) ==
            Exec(p, listeners, slot, enclosing, next).(threw := true)
  {
    var a := Exec(p, listeners, slot, enclosing, next);
    var b := Exec(q, listeners, slot, enclosing, a.next);
    ThenAssociates(a, b, Exec(r, listeners, slot, enclosing, b.next));
    NothingThen(Exec(p, listeners, slot, enclosing, next), next, false);
    NothingThen(a, a.next, true);
    NothingThen(a, a.next, false);
  }

  /** What a catch does: a handler runs exactly after a throw, in its place; what the body did before it stays; and a
      throw of the handler goes on to the next one. */
  lemma CatchLaws(p: Program, q: Program, r: Program, listeners: seq<Listener>, slot: nat, enclosing: seq<nat>,
                  next: nat)
    ensures Exec(TryCatch(Sequence(p, Throw), q), listeners, slot, enclosing, next) ==
            Exec(Sequence(TryCatch(p, Skip), q), listeners, slot, enclosing, next)
    ensures Exec(TryCatch(Skip, q), listeners, slot, enclosing, next) == Exec(Skip, listeners, slot, enclosing, next)
    ensures Exec(TryCatch(p, Throw), listeners, slot, enclosing, next) == Exec(p, listeners, slot, enclosing, next)
    ensures Exec(TryCatch(TryCatch(p, q), r), listeners, slot, enclosing, next) ==
            Exec(TryCatch(p, TryCatch(q, r)), listeners, slot, enclosing, next)
    ensures !Exec(TryCatch(p, Skip), listeners, slot, enclosing, next).threw
  {
    var a := Exec(p, listeners, slot, enclosing, next);
    var b := Exec(q, listeners, slot, enclosing, a.next);
    ThenAssociates(a, b, Exec(r, listeners, slot, enclosing, b.next));
    NothingThen(a, next, true);
    NothingThen(a, next, false);
    NothingThen(a.(threw := true), next, false);
    assert Exec(Sequence(p, Throw), listeners, slot, enclosing, next) == a.(threw := true);
    assert Exec(TryCatch(p, Skip), listeners, slot, enclosing, next) == a.(threw := false);
    NothingThen(b, next, false);
  }

  /** Naming keeps the events of that name, as often as they occur. */
  lemma {:induction false} NamedExactly(events: seq<Event>, name: string, e: Event)
    ensures multiset(Named(events, name))[e] == if e.name == name then multiset(events)[e] else 0
  {
    if events != [] {
      var init, last := events[..|events| - 1], events[|events| - 1];
      assert events == init + [last];
      NamedExactly(init, name, e);
    }
  }
}

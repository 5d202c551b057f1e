/** The event bus: emit, nested transactional buffers, and delivery. */
module EventBuses {
  import opened Sequences
  import opened BusTrace

  /** The effect of a trace `t`, run inside the transactions `enclosing`, on the buffers and on what one
      listener has been called with. A bypass listener is called for every emit at once. A normal listener
      is called with what committed, or, while a transaction is open, not at all: what committed so far
      waits in the innermost buffer. */
  ghost predicate Executed(listener: Listener, t: Trace, enclosing: seq<nat>,
                           stack0: seq<seq<Event>>, log0: seq<Event>, stack1: seq<seq<Event>>, log1: seq<Event>) {
    var committed := Committed(t.deferred, t.failed);
    && |stack0| == |enclosing|
    && log1 == log0 + Heard(listener, t, enclosing)
    && (if enclosing == [] then stack1 == []
        else stack1 == stack0[..|stack0| - 1] + [stack0[|stack0| - 1] + committed])
  }

  ghost function Heard(listener: Listener, t: Trace, enclosing: seq<nat>): seq<Event> {
    if listener.bypass then Named(Committed(t.immediate, {}), listener.name)
    else if enclosing == [] then Named(Committed(t.deferred, t.failed), listener.name)
    else []
  }

  lemma ExecutedNothing(listener: Listener, t: Trace, enclosing: seq<nat>, stack: seq<seq<Event>>, log: seq<Event>)
    requires t.immediate == [] && t.deferred == [] && |stack| == |enclosing|
    ensures Executed(listener, t, enclosing, stack, log, stack, log)
  {
    assert log + [] == log;
    if enclosing != [] {
      assert stack[|stack| - 1] + [] == stack[|stack| - 1];
      assert stack == stack[..|stack| - 1] + [stack[|stack| - 1]];
    }
  }

  lemma ExecutedThen(listener: Listener, a: Trace, b: Trace, enclosing: seq<nat>, next: nat,
                     stack0: seq<seq<Event>>, log0: seq<Event>, stack1: seq<seq<Event>>, log1: seq<Event>,
                     stack2: seq<seq<Event>>, log2: seq<Event>)
    requires Older(enclosing, next) && Scoped(a, enclosing, next) && Scoped(b, enclosing, a.next)
    requires Executed(listener, a, enclosing, stack0, log0, stack1, log1)
    requires Executed(listener, b, enclosing, stack1, log1, stack2, log2)
    ensures Executed(listener, Then(a, b), enclosing, stack0, log0, stack2, log2)
  {
    ThenCommits(a, b, enclosing, next);
    var ca, cb := Committed(a.deferred, a.failed), Committed(b.deferred, b.failed);
    NamedConcat(ca, cb, listener.name);
    CommittedConcat(a.immediate, b.immediate, {});
    NamedConcat(Committed(a.immediate, {}), Committed(b.immediate, {}), listener.name);
    Associate(log0, Heard(listener, a, enclosing), Heard(listener, b, enclosing));
    if enclosing != [] {
      Associate(stack0[|stack0| - 1], ca, cb);
    }
  }

  lemma HeardOneMore(occurrences: seq<Occurrence>, failed: set<nat>, event: Event, enclosing: seq<nat>, name: string)
    requires forall x <- enclosing :: x !in failed
    ensures Named(Committed(occurrences + [Occurrence(event, enclosing)], failed), name) ==
            Named(Committed(occurrences, failed), name) + if event.name == name then [event] else []
  {
    var o := Occurrence(event, enclosing);
    CommittedConcat(occurrences, [o], failed);
    assert Committed([o], failed) == [event];
    NamedConcat(Committed(occurrences, failed), [event], name);
  }

  /** An emit reaching listener `i`: the probe is called if it is meant and may be called now. */
  lemma ExecutedReached(listeners: seq<Listener>, probe: nat, p: Program, enclosing: seq<nat>, i: nat, t: Trace,
                        stack0: seq<seq<Event>>, log0: seq<Event>, stack1: seq<seq<Event>>, log1: seq<Event>)
    requires p.Emit? && i < |listeners| && probe < |listeners|
    requires Executed(listeners[probe], t, enclosing, stack0, log0, stack1, log1)
    ensures Executed(listeners[probe], Reached(p, probe, enclosing, i, t), enclosing, stack0, log0, stack1,
                     if i == probe && listeners[i].name == p.event.name && (listeners[i].bypass || enclosing == [])
                     then log1 + [p.event] else log1)
  {
    if i == probe {
      HeardOneMore(t.immediate, {}, p.event, enclosing, listeners[probe].name);
      if enclosing == [] {
        HeardOneMore(t.deferred, t.failed, p.event, enclosing, listeners[probe].name);
      }
      Associate(log0, Heard(listeners[probe], t, enclosing),
                if listeners[i].name == p.event.name then [p.event] else []);
    }
  }

  /** Queuing the event at the end of an emit inside transactions that are still open. */
  lemma ExecutedQueued(listener: Listener, t: Trace, event: Event, enclosing: seq<nat>, next: nat,
                       stack0: seq<seq<Event>>, log0: seq<Event>, stack1: seq<seq<Event>>, log1: seq<Event>)
    requires enclosing != [] && Older(enclosing, next) && Scoped(t, enclosing, next)
    requires Executed(listener, t, enclosing, stack0, log0, stack1, log1)
    ensures Executed(listener, t.(deferred := t.deferred + [Occurrence(event, enclosing)]), enclosing, stack0, log0,
                     stack1[..|stack1| - 1] + [stack1[|stack1| - 1] + [event]], log1)
  {
    var o := Occurrence(event, enclosing);
    CommittedConcat(t.deferred, [o], t.failed);
    assert Live(o, t.failed);
    assert Committed([o], t.failed) == [event] by { assert [o][..0] == []; }
    Associate(stack0[|stack0| - 1], Committed(t.deferred, t.failed), [event]);
  }

  /** Closing the innermost transaction: its buffer is dropped, merged into its parent's, or flushed. */
  lemma ExecutedClosed(listener: Listener, body: Program, listeners: seq<Listener>, slot: nat, enclosing: seq<nat>,
                       next: nat, stack0: seq<seq<Event>>, log0: seq<Event>, popped: seq<Event>, log1: seq<Event>)
    requires Older(enclosing, next) && |stack0| == |enclosing|
    requires Executed(listener, Exec(body, listeners, slot, enclosing + [next], next + 1), enclosing + [next],
                      stack0 + [[]], log0, stack0 + [popped], log1)
    ensures var t := Exec(Transaction(body), listeners, slot, enclosing, next);
            var kept := if t.threw then [] else popped;
            Executed(listener, t, enclosing, stack0, log0,
                     if enclosing == [] then [] else stack0[..|stack0| - 1] + [stack0[|stack0| - 1] + kept],
                     if enclosing == [] && !listener.bypass then log1 + Named(kept, listener.name) else log1)
  {
    TransactionIsAtomic(body, listeners, slot, enclosing, next);
    var inner := Exec(body, listeners, slot, enclosing + [next], next + 1);
    var top := stack0 + [[]];
    assert top[..|top| - 1] == stack0;
    assert (stack0 + [popped])[|stack0|] == [] + Committed(inner.deferred, inner.failed);
    assert popped == Committed(inner.deferred, inner.failed);
  }

  lemma PopRestores(stack0: seq<seq<Event>>, stack1: seq<seq<Event>>, popped: seq<Event>)
    requires |stack1| == |stack0| + 1 && stack1[..|stack0|] == (stack0 + [[]])[..|stack0|] && popped == stack1[|stack0|]
    ensures stack1 == stack0 + [popped] && stack1[..|stack0|] == stack0
  {
    assert (stack0 + [[]])[..|stack0|] == stack0;
  }

  lemma DropIsNothing(stack: seq<seq<Event>>, log: seq<Event>, name: string)
    ensures log + Named([], name) == log
    ensures stack != [] ==> stack == stack[..|stack| - 1] + [stack[|stack| - 1] + []]
  {
    if stack != [] { assert stack[|stack| - 1] + [] == stack[|stack| - 1]; }
  }

  /** The bus with its subscriptions fixed, watched through one of its listeners, the probe: `log` is what
      the probe has been called with. The probe is arbitrary, so what is proved holds of every listener. */
  /** A listener is called with events of its name only. */
  ghost predicate OnlyNamed(events: seq<Event>, name: string) {
    forall i :: 0 <= i < |events| ==> events[i].name == name
  }

  lemma {:induction false} NamedOnly(events: seq<Event>, name: string)
    ensures OnlyNamed(Named(events, name), name)
  {
    if events != [] { NamedOnly(events[..|events| - 1], name); }
  }

  class EventBus {
    const listeners: seq<Listener>
    var bufferStack: seq<seq<Event>>
    ghost const probe: nat
    ghost var log: seq<Event>

    constructor (listeners: seq<Listener>, ghost probe: nat)
      ensures this.listeners == listeners && this.probe == probe && bufferStack == [] && log == []
    {
      this.listeners, bufferStack, this.probe, log := listeners, [], probe, [];
    }

    /** A whole program, started outside any transaction. A normal listener has been called with exactly the
        events of its name whose every enclosing transaction returned, once each and in order; a bypass
        listener with every event of its name. However the program ends, no buffer is left. */
    method RunProgram(p: Program) returns (threw: bool)
      requires probe < |listeners| && bufferStack == []
      modifies this
      ensures var t := Exec(p, listeners, probe, [], 0);
              && threw == t.threw && bufferStack == []
              && (!listeners[probe].bypass ==>
                  log == old(log) + Named(Committed(t.deferred, t.failed), listeners[probe].name))
              && (listeners[probe].bypass ==>
                  log == old(log) + Named(Committed(t.immediate, {}), listeners[probe].name))
      ensures OnlyNamed(log[|old(log)|..], listeners[probe].name)
    {
      threw := Run(p, [], 0);
      ghost var t := Exec(p, listeners, probe, [], 0);
      NamedOnly(Committed(t.deferred, t.failed), listeners[probe].name);
      NamedOnly(Committed(t.immediate, {}), listeners[probe].name);
    }

    /** Runs a piece of code that uses the bus inside the open transactions `enclosing`. */
    method Run(p: Program, ghost enclosing: seq<nat>, ghost next: nat) returns (threw: bool)
      requires probe < |listeners| && |bufferStack| == |enclosing| && Older(enclosing, next)
      modifies this
      ensures threw == Exec(p, listeners, probe, enclosing, next).threw
      ensures Executed(listeners[probe], Exec(p, listeners, probe, enclosing, next), enclosing,
                       old(bufferStack), old(log), bufferStack, log)
      decreases p, 2
    {
      match p {
        case Skip =>
          ExecutedNothing(listeners[probe], Exec(p, listeners, probe, enclosing, next), enclosing, bufferStack, log);
          threw := false;
        case Throw =>
          ExecutedNothing(listeners[probe], Exec(p, listeners, probe, enclosing, next), enclosing, bufferStack, log);
          threw := true;
        case Emit(event, reactions) =>
          EmitEvent(event, reactions, p, enclosing, next);
          threw := false;
        case Transaction(body) =>
          threw := RunInTransaction(body, enclosing, next);
        case Sequence(first, second) =>
          threw := Run(first, enclosing, next);
          if !threw {
            threw := RunNext(first, second, enclosing, next, old(bufferStack), old(log));
          }
        case TryCatch(body, handler) =>
          threw := Run(body, enclosing, next);
          if threw {
            threw := RunNext(body, handler, enclosing, next, old(bufferStack), old(log));
          }
      }
    }

    /** Goes on with `second` after `first`. */
    method RunNext(ghost first: Program, second: Program, ghost enclosing: seq<nat>, ghost next: nat,
                   ghost stack0: seq<seq<Event>>, ghost log0: seq<Event>) returns (threw: bool)
      requires probe < |listeners| && |bufferStack| == |enclosing| && Older(enclosing, next)
      requires Executed(listeners[probe], Exec(first, listeners, probe, enclosing, next), enclosing, stack0, log0,
                        bufferStack, log)
      modifies this
      ensures var t := Exec(first, listeners, probe, enclosing, next);
              var u := Exec(second, listeners, probe, enclosing, t.next);
              && threw == u.threw
              && Executed(listeners[probe], Then(t, u), enclosing, stack0, log0, bufferStack, log)
      decreases second, 3
    {
      ghost var t := Exec(first, listeners, probe, enclosing, next);
      ExecScoped(first, listeners, probe, enclosing, next);
      threw := Run(second, enclosing, t.next);
      ghost var u := Exec(second, listeners, probe, enclosing, t.next);
      ExecScoped(second, listeners, probe, enclosing, t.next);
      ExecutedThen(listeners[probe], t, u, enclosing, next, stack0, log0, old(bufferStack), old(log), bufferStack, log);
    }

    /** `emit`: inside a transaction the bypass listeners are called and the event is queued in the innermost
        buffer; otherwise every listener is called. What a bypass listener throws is swallowed. */
    method EmitEvent(event: Event, reactions: seq<Program>, ghost p: Program, ghost enclosing: seq<nat>,
                     ghost next: nat)
      requires probe < |listeners| && |bufferStack| == |enclosing| && Older(enclosing, next)
      requires p == Emit(event, reactions)
      modifies this
      ensures Executed(listeners[probe], Exec(p, listeners, probe, enclosing, next), enclosing,
                       old(bufferStack), old(log), bufferStack, log)
      decreases p, 1
    {
      var inTransaction := |bufferStack| > 0;
      ExecutedNothing(listeners[probe], Reactions(p, listeners, probe, enclosing, next, 0), enclosing, bufferStack,
                      log);
      for i := 0 to |listeners|
        invariant |bufferStack| == |enclosing|
        invariant Executed(listeners[probe], Reactions(p, listeners, probe, enclosing, next, i), enclosing,
                           old(bufferStack), old(log), bufferStack, log)
      {
        ReachListener(event, reactions, i, p, enclosing, next, old(bufferStack), old(log));
      }
      ReactionsScoped(p, listeners, probe, enclosing, next, |listeners|);
      if inTransaction {
        ghost var t := Reactions(p, listeners, probe, enclosing, next, |listeners|);
        ExecutedQueued(listeners[probe], t, event, enclosing, next, old(bufferStack), old(log), bufferStack, log);
        bufferStack := bufferStack[..|bufferStack| - 1] + [bufferStack[|bufferStack| - 1] + [event]];
      }
    }

    /** Listener `i`'s turn in an emit. */
    method ReachListener(event: Event, reactions: seq<Program>, i: nat, ghost p: Program, ghost enclosing: seq<nat>,
                         ghost next: nat, ghost stack0: seq<seq<Event>>, ghost log0: seq<Event>)
      requires probe < |listeners| && i < |listeners| && |bufferStack| == |enclosing| && Older(enclosing, next)
      requires p == Emit(event, reactions)
      requires Executed(listeners[probe], Reactions(p, listeners, probe, enclosing, next, i), enclosing, stack0,
                        log0, bufferStack, log)
      modifies this
      ensures |bufferStack| == |enclosing|
      ensures Executed(listeners[probe], Reactions(p, listeners, probe, enclosing, next, i + 1), enclosing, stack0,
                       log0, bufferStack, log)
      decreases p, 0
    {
      ghost var t := Reactions(p, listeners, probe, enclosing, next, i);
      ghost var here := Reached(p, probe, enclosing, i, t);
      CallListener(event, i, p, enclosing, t, stack0, log0);
      if listeners[i].name == event.name && listeners[i].bypass && i < |reactions| {
        ghost var s1, l1 := bufferStack, log;
        ReactionsScoped(p, listeners, probe, enclosing, next, i);
        var _ := Run(reactions[i], enclosing, t.next);
        ghost var u := Exec(reactions[i], listeners, probe, enclosing, t.next);
        ExecScoped(reactions[i], listeners, probe, enclosing, t.next);
        ExecutedThen(listeners[probe], here, u, enclosing, next, stack0, log0, s1, l1, bufferStack, log);
      }
    }

    /** Calls listener `i` if it is subscribed and may be called now. */
    method CallListener(event: Event, i: nat, ghost p: Program, ghost enclosing: seq<nat>, ghost t: Trace,
                        ghost stack0: seq<seq<Event>>, ghost log0: seq<Event>)
      requires probe < |listeners| && i < |listeners| && |bufferStack| == |enclosing|
      requires p.Emit? && p.event == event
      requires Executed(listeners[probe], t, enclosing, stack0, log0, bufferStack, log)
      modifies this`log
      ensures Executed(listeners[probe], Reached(p, probe, enclosing, i, t), enclosing, stack0, log0, bufferStack, log)
    {
      ExecutedReached(listeners, probe, p, enclosing, i, t, stack0, log0, bufferStack, log);
      if listeners[i].name == event.name && (listeners[i].bypass || |bufferStack| == 0) {
        if i == probe {
          log := log + [event];
        }
      }
    }

    /** Runs `body` with a buffer of its own, which is popped however `body` ends. */
    method RunInTransaction(body: Program, ghost enclosing: seq<nat>, ghost next: nat) returns (threw: bool)
      requires probe < |listeners| && |bufferStack| == |enclosing| && Older(enclosing, next)
      modifies this
      ensures threw == Exec(Transaction(body), listeners, probe, enclosing, next).threw
      ensures Executed(listeners[probe], Exec(Transaction(body), listeners, probe, enclosing, next), enclosing,
                       old(bufferStack), old(log), bufferStack, log)
      decreases body, 3
    {
      bufferStack := bufferStack + [[]];
      assert Older(enclosing + [next], next + 1);
      threw := Run(body, enclosing + [next], next + 1);
      var popped := bufferStack[|bufferStack| - 1];
      PopRestores(old(bufferStack), bufferStack, popped);
      ExecutedClosed(listeners[probe], body, listeners, probe, enclosing, next, old(bufferStack), old(log), popped,
                     log);
      bufferStack := bufferStack[..|bufferStack| - 1];
      if !threw {
        if |bufferStack| > 0 {
          MergeIntoParent(popped);
        } else {
          Flush(popped);
        }
      } else {
        DropIsNothing(bufferStack, log, listeners[probe].name);
      }
    }

    method MergeIntoParent(popped: seq<Event>)
      requires |bufferStack| > 0
      modifies this`bufferStack
      ensures bufferStack == old(bufferStack)[..|old(bufferStack)| - 1] +
              [old(bufferStack)[|old(bufferStack)| - 1] + popped]
    {
      var n := |bufferStack| - 1;
      assert bufferStack[n] + popped[..0] == bufferStack[n];
      for i := 0 to |popped|
        invariant bufferStack == old(bufferStack)[..n] + [old(bufferStack)[n] + popped[..i]]
      {
        assert popped[..i + 1] == popped[..i] + [popped[i]];
        assert bufferStack[..n] == old(bufferStack)[..n];
        assert bufferStack[n] + [popped[i]] == old(bufferStack)[n] + popped[..i + 1];
        bufferStack := bufferStack[..n] + [bufferStack[n] + [popped[i]]];
      }
      assert popped[..|popped|] == popped;
    }

    /** The outermost commit: every normal listener gets every queued event of its name, in order. */
    method Flush(popped: seq<Event>)
      requires probe < |listeners|
      modifies this`log
      ensures log == old(log) + if listeners[probe].bypass then [] else Named(popped, listeners[probe].name)
    {
      for i := 0 to |popped|
        invariant log == old(log) + if listeners[probe].bypass then [] else Named(popped[..i], listeners[probe].name)
      {
        assert popped[..i + 1][..i] == popped[..i];
        ghost var before := log;
        for j := 0 to |listeners|
          invariant log == before + if probe < j && !listeners[probe].bypass && listeners[probe].name == popped[i].name
                                    then [popped[i]] else []
        {
          if listeners[j].name == popped[i].name && !listeners[j].bypass {
            if j == probe {
              log := log + [popped[i]];
            }
          }
        }
      }
      assert popped[..|popped|] == popped;
    }
  }
}

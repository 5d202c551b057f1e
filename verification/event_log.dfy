/** The replay window of the SSE manager as functions of the broadcast history: what pruning keeps, and
    what a reconnecting client is sent. */
module EventLog {
  import opened Wrappers

  /** `projectId` is the numeric project id of the payload, if it has one; `timestamp` is in milliseconds. */
  datatype Event = Event(eventType: string, timestamp: int, projectId: Option<int>, payload: int)

  datatype Filters = Filters(projectId: Option<int>, eventTypes: Option<seq<string>>)

  datatype Entry = Entry(id: nat, event: Event)

  datatype Message =
    | EventMessage(entry: Entry)
    | ReplayGap(requestedLastEventId: nat, earliestAvailableId: nat)

  /** A project filter of 0 is no filter, and events without a project pass every project filter. */
  predicate Matches(e: Event, f: Filters) {
    && (f.eventTypes.Some? ==> e.eventType in f.eventTypes.value)
    && (f.projectId.Some? && f.projectId.value != 0 && e.projectId.Some? ==> e.projectId == f.projectId)
  }

  /** The filter withholds the event: its type is not in the list that was asked for, or another project was. */
  predicate Withheld(e: Event, f: Filters) {
    || (f.eventTypes.Some? && forall i :: 0 <= i < |f.eventTypes.value| ==> f.eventTypes.value[i] != e.eventType)
    || (f.projectId.Some? && e.projectId.Some? && f.projectId.value != 0 && f.projectId.value != e.projectId.value)
  }

  lemma MatchesUnlessWithheld(e: Event, f: Filters)
    ensures Matches(e, f) <==> !Withheld(e, f)
  {
    if f.eventTypes.Some? {
      assert e.eventType in f.eventTypes.value <==>
             exists i :: 0 <= i < |f.eventTypes.value| && f.eventTypes.value[i] == e.eventType;
    }
  }

  // --- pruning --------------------------------------------------------------------------------

  /** `slice(-n)`: the last `n` elements, but everything when `n` is 0, because -0 is 0. */
  function SliceLast<T>(s: seq<T>, n: nat): seq<T> {
    if n == 0 || |s| <= n then s else s[|s| - n..]
  }

  function Fresh(buffer: seq<Entry>, cutoff: int): seq<Entry> {
    if buffer == [] then []
    else
      var last := buffer[|buffer| - 1];
      Fresh(buffer[..|buffer| - 1], cutoff) + if last.event.timestamp > cutoff then [last] else []
  }

  function Prune(buffer: seq<Entry>, maxSize: nat, ttl: int, now: int): seq<Entry> {
    var sized := if |buffer| > maxSize then SliceLast(buffer, maxSize) else buffer;
    Fresh(sized, now - ttl)
  }

  /** One broadcast: the event and the clock when it was pruned. */
  datatype Tick = Tick(event: Event, now: int)

  /** Every event ever broadcast, numbered from 1. */
  function Log(history: seq<Tick>): seq<Entry> {
    seq(|history|, i requires 0 <= i < |history| => Entry(i + 1, history[i].event))
  }

  /** The buffer after pruning at every broadcast of the history. */
  function BufferAfter(history: seq<Tick>, maxSize: nat, ttl: int): seq<Entry> {
    if history == [] then []
    else
      var last := history[|history| - 1];
      var buffer := BufferAfter(history[..|history| - 1], maxSize, ttl) + [Entry(|history|, last.event)];
      Prune(buffer, maxSize, ttl, last.now)
  }

  predicate ClockAdvances(history: seq<Tick>, i: nat)
    requires i + 1 < |history|
  {
    history[i].now <= history[i + 1].now
  }

  /** Clock and timestamps never go back, and an event is fresh when it is broadcast. */
  ghost predicate WellTimed(history: seq<Tick>, ttl: int) {
    && Ascending(Log(history))
    && (forall i: nat {:trigger ClockAdvances(history, i)} :: i + 1 < |history| ==> ClockAdvances(history, i))
    && forall i :: 0 <= i < |history| ==> history[i].event.timestamp > history[i].now - ttl
  }

  /** `k` is where the longest admissible suffix of the history starts: it respects both bounds at the
      last clock, and the entry before it would break one of them. */
  predicate WindowStart(history: seq<Tick>, maxSize: nat, ttl: int, k: nat) {
    && k <= |history|
    && (history == [] ==> k == 0)
    && (history != [] ==>
          var cutoff := history[|history| - 1].now - ttl;
          && k < |history|
          && (maxSize > 0 ==> |history| - k <= maxSize)
          && (forall i :: k <= i < |history| ==> history[i].event.timestamp > cutoff)
          && (k > 0 ==> (maxSize > 0 && |history| - k == maxSize) || history[k - 1].event.timestamp <= cutoff))
  }

  predicate InOrder(s: seq<Entry>, a: nat, b: nat)
    requires a < b < |s|
  {
    s[a].event.timestamp <= s[b].event.timestamp
  }

  ghost predicate Ascending(s: seq<Entry>) {
    forall a: nat, b: nat {:trigger InOrder(s, a, b)} :: a < b < |s| ==> InOrder(s, a, b)
  }

  lemma AscendingPart(s: seq<Entry>, lo: nat, hi: nat)
    requires Ascending(s) && lo <= hi <= |s|
    ensures Ascending(s[lo..hi])
    ensures lo == 0 ==> s[lo..hi] == s[..hi]
    ensures hi == |s| ==> s[lo..hi] == s[lo..]
  {
    forall a: nat, b: nat | a < b < |s[lo..hi]| ensures InOrder(s[lo..hi], a, b) {
      assert InOrder(s, lo + a, lo + b);
    }
  }

  lemma {:induction false} FreshConcat(a: seq<Entry>, b: seq<Entry>, cutoff: int)
    ensures Fresh(a + b, cutoff) == Fresh(a, cutoff) + Fresh(b, cutoff)
    decreases |b|
  {
    if b == [] {
      assert a + b == a;
    } else {
      FreshConcat(a, b[..|b| - 1], cutoff);
      assert (a + b)[..|a + b| - 1] == a + b[..|b| - 1];
    }
  }

  lemma {:induction false} FreshOfUniform(s: seq<Entry>, cutoff: int, keep: bool)
    requires forall i :: 0 <= i < |s| ==> (s[i].event.timestamp > cutoff <==> keep)
    ensures Fresh(s, cutoff) == if keep then s else []
  {
    if s != [] { FreshOfUniform(s[..|s| - 1], cutoff, keep); }
  }

  lemma {:induction false} FreshExactly(s: seq<Entry>, cutoff: int)
    ensures forall e :: e in Fresh(s, cutoff) <==> e in s && e.event.timestamp > cutoff
    ensures |Fresh(s, cutoff)| <= |s|
  {
    if s != [] {
      var init, last := s[..|s| - 1], s[|s| - 1];
      assert s == init + [last];
      FreshExactly(init, cutoff);
    }
  }

  /** `k` starts the longest suffix of the buffer within both bounds. */
  predicate SuffixStart(buffer: seq<Entry>, maxSize: nat, cutoff: int, k: nat) {
    && k <= |buffer|
    && (maxSize > 0 ==> |buffer| - k <= maxSize)
    && (forall i :: k <= i < |buffer| ==> buffer[i].event.timestamp > cutoff)
    && (k > 0 ==> (maxSize > 0 && |buffer| - k == maxSize) || buffer[k - 1].event.timestamp <= cutoff)
  }

  /** Where the newest `maxSize` entries start; with a bound of 0 all count as newest. */
  function NewestFrom(buffer: seq<Entry>, maxSize: nat): (start: nat)
    ensures start <= |buffer|
  {
    if maxSize > 0 && |buffer| > maxSize then |buffer| - maxSize else 0
  }

  lemma PruneIsFreshNewest(buffer: seq<Entry>, maxSize: nat, ttl: int, now: int)
    ensures Prune(buffer, maxSize, ttl, now) == Fresh(buffer[NewestFrom(buffer, maxSize)..], now - ttl)
  {
  }

  /** What one pruning keeps, on any buffer: of the newest `maxSize` entries exactly those younger than the TTL. */
  lemma PruneKeeps(buffer: seq<Entry>, maxSize: nat, ttl: int, now: int)
    ensures var kept := Prune(buffer, maxSize, ttl, now);
            && (forall e :: e in kept <==> e in buffer[NewestFrom(buffer, maxSize)..] && e.event.timestamp > now - ttl)
            && (maxSize > 0 ==> |kept| <= maxSize)
  {
    PruneIsFreshNewest(buffer, maxSize, ttl, now);
    FreshExactly(buffer[NewestFrom(buffer, maxSize)..], now - ttl);
  }

  /** When timestamps ascend, that is the longest suffix within both bounds. */
  lemma PruneKeepsSuffix(buffer: seq<Entry>, maxSize: nat, ttl: int, now: int) returns (k: nat)
    requires Ascending(buffer)
    ensures SuffixStart(buffer, maxSize, now - ttl, k) && Prune(buffer, maxSize, ttl, now) == buffer[k..]
  {
    PruneIsFreshNewest(buffer, maxSize, ttl, now);
    k := FreshPart(buffer, NewestFrom(buffer, maxSize), now - ttl);
  }

  /** What a pruned buffer is, told without the steps of pruning. */
  ghost predicate Pruned(before: seq<Entry>, after: seq<Entry>, maxSize: nat, cutoff: int) {
    && (forall e :: e in after <==> e in before[NewestFrom(before, maxSize)..] && e.event.timestamp > cutoff)
    && (maxSize > 0 ==> |after| <= maxSize)
    && (Ascending(before) ==> exists k: nat :: SuffixStart(before, maxSize, cutoff, k) && after == before[k..])
  }

  lemma PruneIsPruned(buffer: seq<Entry>, maxSize: nat, ttl: int, now: int)
    ensures Pruned(buffer, Prune(buffer, maxSize, ttl, now), maxSize, now - ttl)
  {
    PruneKeeps(buffer, maxSize, ttl, now);
    if Ascending(buffer) {
      var k := PruneKeepsSuffix(buffer, maxSize, ttl, now);
    }
  }

  lemma FreshIsSuffix(s: seq<Entry>, cutoff: int) returns (j: nat)
    requires Ascending(s)
    ensures j <= |s| && Fresh(s, cutoff) == s[j..]
    ensures forall i :: j <= i < |s| ==> s[i].event.timestamp > cutoff
    ensures j > 0 ==> s[j - 1].event.timestamp <= cutoff
  {
    j := 0;
    while j < |s| && s[j].event.timestamp <= cutoff
      invariant j <= |s| && forall i :: 0 <= i < j ==> s[i].event.timestamp <= cutoff
    {
      j := j + 1;
    }
    forall i | j <= i < |s| ensures s[i].event.timestamp > cutoff {
      assert j < i ==> InOrder(s, j, i);
    }
    SplitFresh(s[..j], s[j..], cutoff);
    assert s == s[..j] + s[j..];
  }

  lemma SplitFresh(a: seq<Entry>, b: seq<Entry>, cutoff: int)
    requires forall i :: 0 <= i < |a| ==> a[i].event.timestamp <= cutoff
    requires forall i :: 0 <= i < |b| ==> b[i].event.timestamp > cutoff
    ensures Fresh(a + b, cutoff) == b
  {
    FreshOfUniform(a, cutoff, false);
    FreshOfUniform(b, cutoff, true);
    FreshConcat(a, b, cutoff);
  }

  /** One pruning of a suffix that was within the size bound before the last entry came in. */
  lemma PruneIsSuffix(log: seq<Entry>, k: nat, maxSize: nat, ttl: int, now: int) returns (k': nat)
    requires Ascending(log) && k < |log| && log[|log| - 1].event.timestamp > now - ttl
    requires maxSize > 0 ==> |log| - k <= maxSize + 1
    ensures k <= k' < |log| && Prune(log[k..], maxSize, ttl, now) == log[k'..]
    ensures maxSize > 0 ==> |log| - k' <= maxSize
    ensures forall i :: k' <= i < |log| ==> log[i].event.timestamp > now - ttl
    ensures k' == k || (maxSize > 0 && |log| - k' == maxSize) || log[k' - 1].event.timestamp <= now - ttl
  {
    PruneCuts(log, k, maxSize, ttl, now);
    k' := FreshPart(log, CutAt(log, k, maxSize), now - ttl);
  }

  lemma FreshPart(log: seq<Entry>, cut: nat, cutoff: int) returns (k': nat)
    requires Ascending(log) && cut <= |log|
    ensures cut <= k' <= |log| && Fresh(log[cut..], cutoff) == log[k'..]
    ensures forall i :: k' <= i < |log| ==> log[i].event.timestamp > cutoff
    ensures k' > cut ==> log[k' - 1].event.timestamp <= cutoff
  {
    AscendingPart(log, cut, |log|);
    var j := FreshIsSuffix(log[cut..], cutoff);
    SuffixFacts(log, cut, j, cutoff);
    k' := cut + j;
  }

  function CutAt(log: seq<Entry>, k: nat, maxSize: nat): nat {
    if maxSize > 0 && |log| - k > maxSize then k + 1 else k
  }

  lemma PruneCuts(log: seq<Entry>, k: nat, maxSize: nat, ttl: int, now: int)
    requires k < |log| && (maxSize > 0 ==> |log| - k <= maxSize + 1)
    ensures k <= CutAt(log, k, maxSize) < |log|
    ensures Prune(log[k..], maxSize, ttl, now) == Fresh(log[CutAt(log, k, maxSize)..], now - ttl)
  {
  }

  /** Indices of a suffix and of the whole log. */
  lemma SuffixFacts(log: seq<Entry>, cut: nat, j: nat, cutoff: int)
    requires cut <= |log| && j <= |log[cut..]|
    requires forall i :: j <= i < |log[cut..]| ==> log[cut..][i].event.timestamp > cutoff
    requires j > 0 ==> log[cut..][j - 1].event.timestamp <= cutoff
    ensures cut + j <= |log| && log[cut..][j..] == log[cut + j..]
    ensures forall i :: cut + j <= i < |log| ==> log[i].event.timestamp > cutoff
    ensures j > 0 ==> log[cut + j - 1].event.timestamp <= cutoff
  {
    forall i | cut + j <= i < |log| ensures log[i].event.timestamp > cutoff {
      assert log[cut..][i - cut] == log[i];
    }
  }

  lemma WellTimedInit(history: seq<Tick>, ttl: int)
    requires WellTimed(history, ttl) && history != []
    ensures WellTimed(history[..|history| - 1], ttl) && Ascending(Log(history))
    ensures |history| > 1 ==> history[|history| - 2].now <= history[|history| - 1].now
    ensures Log(history[..|history| - 1]) == Log(history)[..|history| - 1]
  {
    var n := |history| - 1;
    AscendingPart(Log(history), 0, n);
    assert Log(history[..n]) == Log(history)[0..n];
    forall i: nat | i + 1 < n ensures ClockAdvances(history[..n], i) {
      assert ClockAdvances(history, i);
    }
    if n > 0 { assert ClockAdvances(history, n - 1); }
  }

  /** The window moves on with one more broadcast. */
  lemma WindowAdvances(history: seq<Tick>, maxSize: nat, ttl: int, k0: nat, k: nat)
    requires history != [] && WindowStart(history[..|history| - 1], maxSize, ttl, k0) && k0 <= k < |history|
    requires |history| > 1 ==> history[|history| - 2].now <= history[|history| - 1].now
    requires maxSize > 0 ==> |history| - k <= maxSize
    requires forall i :: k <= i < |history| ==> Log(history)[i].event.timestamp > history[|history| - 1].now - ttl
    requires k == k0 || (maxSize > 0 && |history| - k == maxSize) ||
             Log(history)[k - 1].event.timestamp <= history[|history| - 1].now - ttl
    ensures WindowStart(history, maxSize, ttl, k)
  {
    forall i | k <= i < |history| ensures history[i].event.timestamp > history[|history| - 1].now - ttl {
      assert Log(history)[i].event == history[i].event;
    }
  }

  lemma {:induction false} OneMoreBuffered(history: seq<Tick>, tick: Tick, maxSize: nat, ttl: int, k: nat)
    requires k <= |history| && BufferAfter(history, maxSize, ttl) == Log(history)[k..]
    ensures BufferAfter(history + [tick], maxSize, ttl) == Prune(Log(history + [tick])[k..], maxSize, ttl, tick.now)
  {
    BufferOneMore(history, tick, maxSize, ttl);
    SuffixOneMore(Log(history), Entry(|history| + 1, tick.event), k);
  }

  lemma SuffixOneMore(log: seq<Entry>, entry: Entry, k: nat)
    requires k <= |log|
    ensures log[k..] + [entry] == (log + [entry])[k..]
  {
  }

  lemma {:induction false} BufferOneMore(history: seq<Tick>, tick: Tick, maxSize: nat, ttl: int)
    ensures Log(history + [tick]) == Log(history) + [Entry(|history| + 1, tick.event)]
    ensures BufferAfter(history + [tick], maxSize, ttl) ==
            Prune(BufferAfter(history, maxSize, ttl) + [Entry(|history| + 1, tick.event)], maxSize, ttl, tick.now)
  {
    assert (history + [tick])[..|history|] == history;
  }

  /** Pruning at every broadcast keeps exactly what pruning the whole log at the end would keep: the
      longest suffix within both bounds. Its ids are therefore consecutive and end at the newest. */
  lemma {:induction false} IncrementalPruning(history: seq<Tick>, maxSize: nat, ttl: int) returns (k: nat)
    requires WellTimed(history, ttl)
    ensures WindowStart(history, maxSize, ttl, k)
    ensures BufferAfter(history, maxSize, ttl) == Log(history)[k..]
  {
    if history == [] {
      return 0;
    }
    var init, tick := history[..|history| - 1], history[|history| - 1];
    assert history == init + [tick];
    WellTimedInit(history, ttl);
    var k0 := IncrementalPruning(init, maxSize, ttl);
    OneMoreBuffered(init, tick, maxSize, ttl, k0);
    k := NextWindow(init, tick, maxSize, ttl, k0);
  }

  lemma {:induction false} NextWindow(history: seq<Tick>, tick: Tick, maxSize: nat, ttl: int, k0: nat) returns (k: nat)
    requires WellTimed(history + [tick], ttl) && WindowStart(history, maxSize, ttl, k0)
    ensures WindowStart(history + [tick], maxSize, ttl, k)
    ensures Prune(Log(history + [tick])[k0..], maxSize, ttl, tick.now) == Log(history + [tick])[k..]
  {
    var all := history + [tick];
    assert all[..|all| - 1] == history;
    WellTimedInit(all, ttl);
    k := PruneIsSuffix(Log(all), k0, maxSize, ttl, tick.now);
    WindowAdvances(all, maxSize, ttl, k0, k);
  }

  // --- replay -----------------------------------------------------------------------------------

  /** The entries after id `from` that a filter lets through, in order. */
  function Wanted(entries: seq<Entry>, f: Filters, from: nat): seq<Entry> {
    if entries == [] then []
    else
      var last := entries[|entries| - 1];
      Wanted(entries[..|entries| - 1], f, from) + if last.id > from && Matches(last.event, f) then [last] else []
  }

  predicate SendsGap(buffer: seq<Entry>, from: nat) {
    from > 0 && |buffer| > 0 && buffer[0].id > from + 1
  }

  lemma {:induction false} WantedConcat(a: seq<Entry>, b: seq<Entry>, f: Filters, from: nat)
    ensures Wanted(a + b, f, from) == Wanted(a, f, from) + Wanted(b, f, from)
    decreases |b|
  {
    if b == [] {
      assert a + b == a;
    } else {
      WantedConcat(a, b[..|b| - 1], f, from);
      assert (a + b)[..|a + b| - 1] == a + b[..|b| - 1];
    }
  }

  lemma {:induction false} NothingWanted(entries: seq<Entry>, f: Filters, from: nat)
    requires forall i :: 0 <= i < |entries| ==> entries[i].id <= from || !Matches(entries[i].event, f)
    ensures Wanted(entries, f, from) == []
  {
    if entries != [] { NothingWanted(entries[..|entries| - 1], f, from); }
  }

  predicate Buffered(buffer: seq<Entry>, id: nat) {
    exists i :: 0 <= i < |buffer| && buffer[i].id == id
  }

  /** Some id after `from` was broadcast and can no longer be replayed. */
  ghost predicate SomethingLost(history: seq<Tick>, buffer: seq<Entry>, from: nat) {
    exists id: nat :: from < id <= |history| && !Buffered(buffer, id)
  }

  // --- whatever the clocks do -------------------------------------------------------------------

  predicate InLog(log: seq<Entry>, e: Entry) { 0 < e.id <= |log| && e == log[e.id - 1] }

  /** Entries of the log with ids up to `hi`, each once and in its order. */
  predicate Selected(log: seq<Entry>, s: seq<Entry>, hi: int) {
    s == [] || (var last := s[|s| - 1];
                InLog(log, last) && last.id <= hi && Selected(log, s[..|s| - 1], last.id - 1))
  }

  lemma {:induction false} SelectedHigher(log: seq<Entry>, s: seq<Entry>, lo: int, hi: int)
    requires Selected(log, s, lo) && lo <= hi
    ensures Selected(log, s, hi)
  {
  }

  lemma {:induction false} SelectedLonger(log: seq<Entry>, more: seq<Entry>, s: seq<Entry>, hi: int)
    requires Selected(log, s, hi) && log <= more
    ensures Selected(more, s, hi)
    decreases |s|
  {
    if s != [] { SelectedLonger(log, more, s[..|s| - 1], s[|s| - 1].id - 1); }
  }

  lemma {:induction false} SelectedLast(log: seq<Entry>, s: seq<Entry>, e: Entry, hi: int)
    requires Selected(log, s, e.id - 1) && InLog(log, e) && e.id <= hi
    ensures Selected(log, s + [e], hi)
  {
    assert (s + [e])[..|s|] == s;
  }

  lemma {:induction false} SelectedMembers(log: seq<Entry>, s: seq<Entry>, hi: int)
    requires Selected(log, s, hi)
    ensures forall e :: e in s ==> InLog(log, e) && e.id <= hi
    decreases |s|
  {
    if s != [] {
      var init, last := s[..|s| - 1], s[|s| - 1];
      assert s == init + [last];
      SelectedMembers(log, init, last.id - 1);
    }
  }

  lemma {:induction false} FirstIsLeast(log: seq<Entry>, s: seq<Entry>, hi: int)
    requires Selected(log, s, hi) && s != []
    ensures forall e :: e in s ==> s[0].id <= e.id
    decreases |s|
  {
    var init, last := s[..|s| - 1], s[|s| - 1];
    assert s == init + [last];
    if init != [] {
      FirstIsLeast(log, init, last.id - 1);
      SelectedMembers(log, init, last.id - 1);
      assert init[0] in init;
    }
  }

  /** A selection is determined by its members. */
  lemma {:induction false} SelectionIsUnique(log: seq<Entry>, a: seq<Entry>, b: seq<Entry>, hi: int)
    requires Selected(log, a, hi) && Selected(log, b, hi) && SameMembers(a, b)
    ensures a == b
    decreases |a|
  {
    HasMember(a);
    HasMember(b);
    if a != [] {
      var front, x, other, y := a[..|a| - 1], a[|a| - 1], b[..|b| - 1], b[|b| - 1];
      assert a == front + [x] && b == other + [y];
      LastsAgree(log, front, x, other, y);
      SelectionIsUnique(log, front, other, x.id - 1);
    }
  }

  lemma HasMember(s: seq<Entry>)
    ensures s != [] <==> exists e :: e in s
  {
    if s != [] { assert s[0] in s; }
  }

  ghost predicate SameMembers(a: seq<Entry>, b: seq<Entry>) {
    forall e :: e in a <==> e in b
  }

  lemma {:induction false} LastsAgree(log: seq<Entry>, a: seq<Entry>, x: Entry, b: seq<Entry>, y: Entry)
    requires Selected(log, a, x.id - 1) && Selected(log, b, y.id - 1) && InLog(log, x) && InLog(log, y)
    requires SameMembers(a + [x], b + [y])
    ensures x == y && SameMembers(a, b)
  {
    SelectedMembers(log, a, x.id - 1);
    SelectedMembers(log, b, y.id - 1);
    assert x in a + [x] && y in b + [y];
    assert x == y;
    forall e ensures e in a <==> e in b {
      assert e in a + [x] <==> e in b + [y];
    }
  }

  lemma {:induction false} FreshIsSelected(log: seq<Entry>, s: seq<Entry>, cutoff: int, hi: int)
    requires Selected(log, s, hi)
    ensures Selected(log, Fresh(s, cutoff), hi)
    decreases |s|
  {
    if s != [] {
      var init, last := s[..|s| - 1], s[|s| - 1];
      FreshIsSelected(log, init, cutoff, last.id - 1);
      if last.event.timestamp > cutoff {
        SelectedLast(log, Fresh(init, cutoff), last, hi);
      } else {
        SelectedHigher(log, Fresh(init, cutoff), last.id - 1, hi);
        assert Fresh(s, cutoff) == Fresh(init, cutoff);
      }
    }
  }

  lemma {:induction false} WantedIsSelected(log: seq<Entry>, s: seq<Entry>, f: Filters, from: nat, hi: int)
    requires Selected(log, s, hi)
    ensures Selected(log, Wanted(s, f, from), hi)
    decreases |s|
  {
    if s != [] {
      var init, last := s[..|s| - 1], s[|s| - 1];
      WantedIsSelected(log, init, f, from, last.id - 1);
      if last.id > from && Matches(last.event, f) {
        SelectedLast(log, Wanted(init, f, from), last, hi);
      } else {
        SelectedHigher(log, Wanted(init, f, from), last.id - 1, hi);
        assert Wanted(s, f, from) == Wanted(init, f, from);
      }
    }
  }

  lemma {:induction false} SuffixIsSelected(log: seq<Entry>, s: seq<Entry>, k: nat, hi: int)
    requires Selected(log, s, hi) && k <= |s|
    ensures Selected(log, s[k..], hi)
    decreases |s|
  {
    if k < |s| {
      SuffixIsSelected(log, s[..|s| - 1], k, s[|s| - 1].id - 1);
      SelectedLast(log, s[..|s| - 1][k..], s[|s| - 1], hi);
      assert s[k..] == s[..|s| - 1][k..] + [s[|s| - 1]];
    }
  }

  lemma {:induction false} WantedExactly(s: seq<Entry>, f: Filters, from: nat)
    ensures forall e :: e in Wanted(s, f, from) <==> e in s && e.id > from && Matches(e.event, f)
  {
    if s != [] {
      var init, last := s[..|s| - 1], s[|s| - 1];
      assert s == init + [last];
      WantedExactly(init, f, from);
    }
  }

  lemma {:induction false} PrefixIsSelected(log: seq<Entry>, n: nat)
    requires n <= |log| && forall i :: 0 <= i < |log| ==> log[i].id == i + 1
    ensures Selected(log, log[..n], n)
  {
    if n > 0 {
      PrefixIsSelected(log, n - 1);
      SelectedLast(log, log[..n - 1], log[n - 1], n);
      assert log[..n] == log[..n - 1] + [log[n - 1]];
    }
  }

  lemma LogIsSelected(history: seq<Tick>)
    ensures Selected(Log(history), Log(history), |history|)
    ensures forall e :: e in Log(history) <==> InLog(Log(history), e)
  {
    var log := Log(history);
    PrefixIsSelected(log, |log|);
    assert log[..|log|] == log;
    SelectedMembers(log, log, |log|);
    forall e | InLog(log, e) ensures e in log { assert log[e.id - 1] in log; }
  }

  /** Whatever the clocks do, the buffer is a selection of the log. (NextBuffer: what has left it never returns.) */
  lemma {:induction false} BufferIsSelected(history: seq<Tick>, maxSize: nat, ttl: int)
    ensures Selected(Log(history), BufferAfter(history, maxSize, ttl), |history|)
  {
    if history != [] {
      BufferIsSelected(history[..|history| - 1], maxSize, ttl);
      NextBuffer(history[..|history| - 1], history[|history| - 1], maxSize, ttl);
      assert history == history[..|history| - 1] + [history[|history| - 1]];
    }
  }

  lemma NextBuffer(history: seq<Tick>, tick: Tick, maxSize: nat, ttl: int)
    requires Selected(Log(history), BufferAfter(history, maxSize, ttl), |history|)
    ensures Selected(Log(history + [tick]), BufferAfter(history + [tick], maxSize, ttl), |history| + 1)
    ensures forall e :: e in BufferAfter(history + [tick], maxSize, ttl) ==>
                          e in BufferAfter(history, maxSize, ttl) || e.id == |history| + 1
  {
    var entry := Entry(|history| + 1, tick.event);
    BufferOneMore(history, tick, maxSize, ttl);
    NextIsSelected(Log(history), BufferAfter(history, maxSize, ttl), entry, maxSize, ttl, tick.now);
  }

  lemma {:induction false} NextIsSelected(log: seq<Entry>, older: seq<Entry>, entry: Entry, maxSize: nat, ttl: int,
                                          now: int)
    requires Selected(log, older, |log|) && entry.id == |log| + 1
    ensures Selected(log + [entry], Prune(older + [entry], maxSize, ttl, now), |log| + 1)
    ensures forall e :: e in Prune(older + [entry], maxSize, ttl, now) ==> e in older || e == entry
  {
    SelectedLonger(log, log + [entry], older, |log|);
    SelectedLast(log + [entry], older, entry, |log| + 1);
    PrunedIsSelected(log + [entry], older + [entry], maxSize, ttl, now, |log| + 1);
  }

  lemma {:induction false} PrunedIsSelected(log: seq<Entry>, buffer: seq<Entry>, maxSize: nat, ttl: int, now: int,
                                            hi: int)
    requires Selected(log, buffer, hi)
    ensures Selected(log, Prune(buffer, maxSize, ttl, now), hi)
    ensures forall e :: e in Prune(buffer, maxSize, ttl, now) ==> e in buffer
  {
    PruneIsFreshNewest(buffer, maxSize, ttl, now);
    SuffixIsSelected(log, buffer, NewestFrom(buffer, maxSize), hi);
    FreshIsSelected(log, buffer[NewestFrom(buffer, maxSize)..], now - ttl, hi);
    PruneOnlyDrops(buffer, maxSize, ttl, now);
  }

  lemma PruneOnlyDrops(buffer: seq<Entry>, maxSize: nat, ttl: int, now: int)
    ensures forall e :: e in Prune(buffer, maxSize, ttl, now) ==> e in buffer
  {
    PruneKeeps(buffer, maxSize, ttl, now);
    forall e | e in buffer[NewestFrom(buffer, maxSize)..] ensures e in buffer {}
  }

  /** A client that is owed the matching events after `owed` and resumes with `from` misses one: it has left the
      buffer, or its id is not above `from`. The two ids differ when `from` stems from an earlier process, whose
      numbering says nothing about this log. */
  ghost predicate Misses(log: seq<Entry>, buffer: seq<Entry>, f: Filters, from: nat, owed: nat) {
    exists e :: e in log && e.id > owed && Matches(e.event, f) && (e !in buffer || e.id <= from)
  }

  /** What is missed without a gap message: an event not above `from`, or one that left the buffer although the
      buffer starts before it or is empty, or although `from` is 0. */
  ghost predicate MissesSilently(log: seq<Entry>, buffer: seq<Entry>, f: Filters, from: nat, owed: nat) {
    exists e :: e in log && e.id > owed && Matches(e.event, f) &&
                (e.id <= from || (e !in buffer && (from == 0 || buffer == [] || buffer[0].id < e.id)))
  }

  lemma {:induction false} SelectionIsExact(history: seq<Tick>, buffer: seq<Entry>, f: Filters, from: nat, owed: nat)
    requires owed <= from && Selected(Log(history), buffer, |history|)
    ensures Wanted(buffer, f, from) == Wanted(Log(history), f, owed) <==> !Misses(Log(history), buffer, f, from, owed)
  {
    var log := Log(history);
    LogIsSelected(history);
    WantedIsSelected(log, buffer, f, from, |history|);
    WantedIsSelected(log, log, f, owed, |history|);
    WantedMembers(log, buffer, f, from, owed, |history|);
    if !Misses(log, buffer, f, from, owed) {
      SelectionIsUnique(log, Wanted(buffer, f, from), Wanted(log, f, owed), |history|);
    }
  }

  lemma {:induction false} WantedMembers(log: seq<Entry>, buffer: seq<Entry>, f: Filters, from: nat, owed: nat, hi: int)
    requires owed <= from && Selected(log, buffer, hi) && forall e :: e in log <==> InLog(log, e)
    ensures SameMembers(Wanted(buffer, f, from), Wanted(log, f, owed)) <==> !Misses(log, buffer, f, from, owed)
  {
    SelectedMembers(log, buffer, hi);
    WantedExactly(buffer, f, from);
    WantedExactly(log, f, owed);
    if e :| e in log && e.id > owed && Matches(e.event, f) && (e !in buffer || e.id <= from) {
      assert e in Wanted(log, f, owed) && e !in Wanted(buffer, f, from);
    } else {
      forall e ensures e in Wanted(buffer, f, from) <==> e in Wanted(log, f, owed) {
        if e in buffer { assert InLog(log, e); }
      }
    }
  }

  lemma {:induction false} GapMeansLoss(history: seq<Tick>, buffer: seq<Entry>, from: nat)
    requires Selected(Log(history), buffer, |history|)
    ensures SendsGap(buffer, from) ==> SomethingLost(history, buffer, from)
  {
    if SendsGap(buffer, from) {
      FirstIsLeast(Log(history), buffer, |history|);
      SelectedMembers(Log(history), buffer, |history|);
      assert buffer[0] in buffer;
      assert forall i :: 0 <= i < |buffer| ==> buffer[i] in buffer;
      assert !Buffered(buffer, from + 1);
    }
  }

  lemma {:induction false} SilenceIsExact(history: seq<Tick>, buffer: seq<Entry>, f: Filters, from: nat, owed: nat)
    requires Selected(Log(history), buffer, |history|)
    ensures Misses(Log(history), buffer, f, from, owed) && !SendsGap(buffer, from) <==>
            MissesSilently(Log(history), buffer, f, from, owed) && !SendsGap(buffer, from)
  {
    var log := Log(history);
    LogIsSelected(history);
    forall e | e in log && e !in buffer && e.id > from && buffer != [] && buffer[0].id <= from + 1
      ensures buffer[0].id < e.id
    {
      HoleIsInside(log, buffer, e, from, |history|);
    }
  }

  lemma {:induction false} HoleIsInside(log: seq<Entry>, buffer: seq<Entry>, e: Entry, from: nat, hi: int)
    requires Selected(log, buffer, hi) && buffer != [] && InLog(log, e) && e !in buffer
    requires buffer[0].id <= from + 1 && from < e.id
    ensures buffer[0].id < e.id
  {
    SelectedMembers(log, buffer, hi);
    assert InLog(log, buffer[0]) by { assert buffer[0] in buffer; }
    assert e != buffer[0];
  }

  /** What parsing a `Last-Event-ID` header gives. */
  datatype ResumeId = NotANumber | Number(value: int)

  /** `id > from`, which is false of every id when `from` is not a number. */
  predicate Exceeds(id: nat, from: ResumeId) { from.Number? && id > from.value }

  /** The natural number that acts as the given id: a negative one acts as 0, and no number as the newest id. */
  function Position(from: ResumeId, newest: nat): nat {
    match from
    case NotANumber => newest
    case Number(n) => if n < 0 then 0 else n
  }

  /** On this buffer the id acts as the number `n`. */
  predicate ActsAs(from: ResumeId, n: nat, buffer: seq<Entry>) {
    && (from.Number? && from.value > 0 ==> n == from.value)
    && (forall i :: 0 <= i < |buffer| ==> (Exceeds(buffer[i].id, from) <==> buffer[i].id > n))
    && (SendsGap(buffer, n) <==> from.Number? && from.value > 0 && |buffer| > 0 && buffer[0].id > from.value + 1)
  }

  lemma PositionActsTheSame(history: seq<Tick>, maxSize: nat, ttl: int, from: ResumeId)
    ensures ActsAs(from, Position(from, |history|), BufferAfter(history, maxSize, ttl))
  {
    var buffer := BufferAfter(history, maxSize, ttl);
    BufferIsSelected(history, maxSize, ttl);
    SelectedMembers(Log(history), buffer, |history|);
    forall i | 0 <= i < |buffer| ensures 0 < buffer[i].id <= |history| {
      assert buffer[i] in buffer;
    }
  }

  /** What a replay delivers, whatever the clocks do and wherever the id comes from. It yields exactly the events
      the client is owed if and only if none of them has left the buffer or lies at or below `from`. A gap message
      is never sent without a loss. And a loss goes unannounced exactly when `MissesSilently` says so. */
  lemma ReplayIsExactOrHonest(history: seq<Tick>, maxSize: nat, ttl: int, f: Filters, from: nat, owed: nat)
    requires owed <= from
    ensures var log, buffer := Log(history), BufferAfter(history, maxSize, ttl);
            && (Wanted(buffer, f, from) == Wanted(log, f, owed) <==> !Misses(log, buffer, f, from, owed))
            && (SendsGap(buffer, from) ==> SomethingLost(history, buffer, from))
            && (Misses(log, buffer, f, from, owed) && !SendsGap(buffer, from) <==>
                MissesSilently(log, buffer, f, from, owed) && !SendsGap(buffer, from))
  {
    var buffer := BufferAfter(history, maxSize, ttl);
    BufferIsSelected(history, maxSize, ttl);
    SelectionIsExact(history, buffer, f, from, owed);
    GapMeansLoss(history, buffer, from);
    SilenceIsExact(history, buffer, f, from, owed);
  }

  /** An id from before a restart can be past the whole log. Then nothing is replayed and no gap is announced,
      and every event of this process so far is missed. */
  lemma StaleIdGetsNothing(history: seq<Tick>, maxSize: nat, ttl: int, f: Filters, from: nat)
    requires from >= |history|
    ensures var buffer := BufferAfter(history, maxSize, ttl);
            && Wanted(buffer, f, from) == [] && !SendsGap(buffer, from)
            && (Misses(Log(history), buffer, f, from, 0) <==> exists e :: e in Log(history) && Matches(e.event, f))
  {
    var log, buffer := Log(history), BufferAfter(history, maxSize, ttl);
    BufferIsSelected(history, maxSize, ttl);
    SelectedMembers(log, buffer, |history|);
    assert forall i :: 0 <= i < |buffer| ==> buffer[i] in buffer;
    NothingWanted(buffer, f, from);
    LogIsSelected(history);
  }

  /** A client that resumes with id 0 never gets a gap message; whatever its filter and the clocks, it misses
      events exactly when one that passes the filter has left the buffer. */
  lemma ZeroResumesSilently(history: seq<Tick>, maxSize: nat, ttl: int, f: Filters)
    ensures var buffer := BufferAfter(history, maxSize, ttl);
            && !SendsGap(buffer, 0)
            && (Wanted(buffer, f, 0) != Wanted(Log(history), f, 0) <==> LosesWanted(history, buffer, f))
  {
    LogIsSelected(history);
    ReplayIsExactOrHonest(history, maxSize, ttl, f, 0, 0);
  }

  /** Some event that a filter lets through has left the buffer. */
  ghost predicate LosesWanted(history: seq<Tick>, buffer: seq<Entry>, f: Filters) {
    exists e :: e in Log(history) && e !in buffer && Matches(e.event, f)
  }

  // --- when clock and timestamps never go back ----------------------------------------------------

  lemma LostIffBeforeWindow(history: seq<Tick>, buffer: seq<Entry>, k: nat, from: nat)
    requires k <= |history| && (history != [] ==> k < |history|) && buffer == Log(history)[k..]
    ensures SomethingLost(history, buffer, from) <==> from < k
    ensures from > 0 ==> (SendsGap(buffer, from) <==> from < k)
  {
    assert forall i :: 0 <= i < |buffer| ==> buffer[i].id == k + i + 1;
    if from < k {
      assert !Buffered(buffer, from + 1);
    } else {
      forall id: nat | from < id <= |history| ensures Buffered(buffer, id) {
        assert buffer[id - k - 1].id == id;
      }
    }
  }

  /** On a well-timed history a positive id is answered honestly: the gap message is sent if and only if some id
      after it has left the buffer, and without it no event after the id is missed. */
  lemma TimedReplayIsHonest(history: seq<Tick>, maxSize: nat, ttl: int, f: Filters, from: nat)
    requires WellTimed(history, ttl) && from > 0
    ensures var buffer := BufferAfter(history, maxSize, ttl);
            && (SendsGap(buffer, from) <==> SomethingLost(history, buffer, from))
            && (Misses(Log(history), buffer, f, from, from) ==> SendsGap(buffer, from))
  {
    var log, buffer := Log(history), BufferAfter(history, maxSize, ttl);
    var k := IncrementalPruning(history, maxSize, ttl);
    LostIffBeforeWindow(history, buffer, k, from);
    LogIsSelected(history);
    if from >= k {
      forall e | e in log && e.id > from ensures e in buffer {
        assert InLog(log, e);
        assert buffer[e.id - 1 - k] == e;
      }
    }
  }

  // --- the losses happen --------------------------------------------------------------------------

  function Stamped(timestamp: int): Event { Event("task.updated", timestamp, None, 0) }

  /** Every event is fresh when it is broadcast and the clock never goes back, but the second event was stamped
      before the first: the order in which a cascade of reactions inside a transaction delivers its events. The
      second entry expires first, from the middle of the buffer, and a client that resumes after the first never
      hears of it. */
  function CascadeHistory(): seq<Tick> { [Tick(Stamped(10), 10), Tick(Stamped(5), 10), Tick(Stamped(20), 20)] }

  lemma CascadeBuffer()
    ensures BufferAfter(CascadeHistory(), 100, 15) == [Entry(1, Stamped(10)), Entry(3, Stamped(20))]
  {
    var x, y, z := Tick(Stamped(10), 10), Tick(Stamped(5), 10), Tick(Stamped(20), 20);
    NothingExpires([], [], x, 100, 15);
    assert [] + [x] == [x] && [] + [Entry(1, x.event)] == [Entry(1, x.event)];
    NothingExpires([x], [Entry(1, x.event)], y, 100, 15);
    assert [x] + [y] == [x, y] && [Entry(1, x.event)] + [Entry(2, y.event)] == [Entry(1, x.event), Entry(2, y.event)];
    MiddleIsPruned([x, y], [Entry(1, x.event), Entry(2, y.event)], z);
    assert [x, y] + [z] == CascadeHistory();
  }

  lemma {:induction false} NothingExpires(history: seq<Tick>, buffer: seq<Entry>, tick: Tick, maxSize: nat, ttl: int)
    requires BufferAfter(history, maxSize, ttl) == buffer && |buffer| < maxSize
    requires forall i :: 0 <= i < |buffer| ==> buffer[i].event.timestamp > tick.now - ttl
    requires tick.event.timestamp > tick.now - ttl
    ensures BufferAfter(history + [tick], maxSize, ttl) == buffer + [Entry(|history| + 1, tick.event)]
  {
    BufferOneMore(history, tick, maxSize, ttl);
    FreshOfUniform(buffer + [Entry(|history| + 1, tick.event)], tick.now - ttl, true);
  }

  lemma {:induction false} MiddleIsPruned(history: seq<Tick>, buffer: seq<Entry>, tick: Tick)
    requires BufferAfter(history, 100, 15) == buffer && |buffer| == |history| == 2
    requires buffer[0].event.timestamp > tick.now - 15 >= buffer[1].event.timestamp
    requires tick.event.timestamp > tick.now - 15
    ensures BufferAfter(history + [tick], 100, 15) == [buffer[0], Entry(3, tick.event)]
  {
    BufferOneMore(history, tick, 100, 15);
    assert buffer == [buffer[0], buffer[1]];
    MiddleExpires(buffer[0], buffer[1], Entry(3, tick.event), tick.now - 15);
  }

  lemma FreshOneMore(s: seq<Entry>, e: Entry, cutoff: int)
    ensures Fresh(s + [e], cutoff) == if e.event.timestamp > cutoff then Fresh(s, cutoff) + [e] else Fresh(s, cutoff)
  {
    assert (s + [e])[..|s|] == s;
  }

  lemma {:induction false} MiddleExpires(a: Entry, b: Entry, c: Entry, cutoff: int)
    requires a.event.timestamp > cutoff && b.event.timestamp <= cutoff && c.event.timestamp > cutoff
    ensures Fresh([a, b] + [c], cutoff) == [a, c]
  {
    FreshOneMore([], a, cutoff);
    FreshOneMore([a], b, cutoff);
    FreshOneMore([a, b], c, cutoff);
    assert [] + [a] == [a] && [a] + [b] == [a, b] && [a] + [c] == [a, c];
  }

  lemma OutOfOrderStampsLoseSilently()
    ensures var h := CascadeHistory(); var buffer := BufferAfter(h, 100, 15);
            && (forall i :: 0 <= i < |h| ==> h[i].event.timestamp > h[i].now - 15)
            && (forall i, j :: 0 <= i < j < |h| ==> h[i].now <= h[j].now)
            && SomethingLost(h, buffer, 1) && !SendsGap(buffer, 1)
            && MissesSilently(Log(h), buffer, Filters(None, None), 1, 1)
  {
    CascadeBuffer();
    var buffer := BufferAfter(CascadeHistory(), 100, 15);
    assert !Buffered(buffer, 2);
    var e := Log(CascadeHistory())[1];
    assert e in Log(CascadeHistory()) && e !in buffer && buffer[0].id < e.id;
  }

  /** After a restart and one broadcast: the id 5 of the earlier process gets neither the event nor a gap. */
  lemma StaleIdLosesSilently(e: Event, ttl: nat)
    requires ttl > 0
    ensures var h := [Tick(e, e.timestamp)]; var buffer := BufferAfter(h, 100, ttl);
            && buffer == Log(h) == [Entry(1, e)]
            && Wanted(buffer, Filters(None, None), 5) == [] && !SendsGap(buffer, 5)
  {
    var h := [Tick(e, e.timestamp)];
    assert h[..0] == [];
    FreshOfUniform([Entry(1, e)], e.timestamp - ttl, true);
    StaleIdGetsNothing(h, 100, ttl, Filters(None, None), 5);
  }

  /** Room for one event, and two broadcasts: resuming with 0 misses the first. */
  lemma ZeroMissesFirstEvent(e: Event, ttl: nat)
    requires ttl > 0
    ensures var history := [Tick(e, e.timestamp), Tick(e, e.timestamp)];
            var buffer := BufferAfter(history, 1, ttl);
            && WellTimed(history, ttl) && !Buffered(buffer, 1) && !SendsGap(buffer, 0)
            && Wanted(buffer, Filters(None, None), 0) != Wanted(Log(history), Filters(None, None), 0)
  {
    var history := [Tick(e, e.timestamp), Tick(e, e.timestamp)];
    assert history[..1] == [Tick(e, e.timestamp)] && history[..1][..0] == [];
    FreshOfUniform([Entry(1, e)], e.timestamp - ttl, true);
    FreshOfUniform([Entry(2, e)], e.timestamp - ttl, true);
    assert BufferAfter(history[..1], 1, ttl) == [Entry(1, e)];
    assert SliceLast([Entry(1, e), Entry(2, e)], 1) == [Entry(2, e)];
    assert BufferAfter(history, 1, ttl) == [Entry(2, e)];
    assert WellTimed(history, ttl);
    ZeroResumesSilently(history, 1, ttl, Filters(None, None));
    assert Log(history)[0] == Entry(1, e);
  }
}

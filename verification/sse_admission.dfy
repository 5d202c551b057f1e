/** Admission to the event stream: caps per principal, per address and overall, counted over the live
    connections. */
module SseAdmission {
  datatype Meta = Meta(fingerprint: string, ip: string)

  datatype Caps = Caps(perKey: nat, perIp: nat, total: nat)

  datatype Decision = Accept | Deny(reason: DenyReason, retryAfterSeconds: nat)
  datatype DenyReason = Global | PerKey | PerIp

  const RETRY_AFTER_SECONDS: nat := 30

  type Live = map<string, Meta>

  function HoldersOfKey(live: Live, fingerprint: string): set<string> {
    set c <- live | live[c].fingerprint == fingerprint
  }

  function HoldersOfIp(live: Live, ip: string): set<string> {
    set c <- live | live[c].ip == ip
  }

  /** No cap is exceeded. */
  ghost predicate WithinCaps(live: Live, caps: Caps) {
    && |live| <= caps.total
    && (forall k :: KeyCapped(live, caps, k))
    && (forall i :: IpCapped(live, caps, i))
  }

  predicate KeyCapped(live: Live, caps: Caps, fingerprint: string) {
    |HoldersOfKey(live, fingerprint)| <= caps.perKey
  }

  predicate IpCapped(live: Live, caps: Caps, ip: string) {
    |HoldersOfIp(live, ip)| <= caps.perIp
  }

  /** There is room for one more connection of this principal and address. */
  predicate HasRoom(live: Live, caps: Caps, meta: Meta) {
    && |live| < caps.total
    && |HoldersOfKey(live, meta.fingerprint)| < caps.perKey
    && |HoldersOfIp(live, meta.ip)| < caps.perIp
  }

  lemma OneMoreOfKey(live: Live, id: string, meta: Meta, k: string)
    requires id !in live
    ensures |HoldersOfKey(live[id := meta], k)| == |HoldersOfKey(live, k)| + if meta.fingerprint == k then 1 else 0
  {
    var before := HoldersOfKey(live, k);
    assert HoldersOfKey(live[id := meta], k) == if meta.fingerprint == k then before + {id} else before;
  }

  lemma OneMoreOfIp(live: Live, id: string, meta: Meta, i: string)
    requires id !in live
    ensures |HoldersOfIp(live[id := meta], i)| == |HoldersOfIp(live, i)| + if meta.ip == i then 1 else 0
  {
    var before := HoldersOfIp(live, i);
    assert HoldersOfIp(live[id := meta], i) == if meta.ip == i then before + {id} else before;
  }

  /** Registering a new connection keeps every cap if and only if there is room for it at that moment. So
      a check made right before is exactly what is needed, and a check made earlier says nothing once other
      registrations came in between. */
  lemma RegistrationKeepsCapsIff(live: Live, caps: Caps, id: string, meta: Meta)
    requires WithinCaps(live, caps) && id !in live
    ensures WithinCaps(live[id := meta], caps) <==> HasRoom(live, caps, meta)
  {
    var more := live[id := meta];
    assert more.Keys == live.Keys + {id};
    OneMoreOfKey(live, id, meta, meta.fingerprint);
    OneMoreOfIp(live, id, meta, meta.ip);
    if HasRoom(live, caps, meta) {
      forall k ensures KeyCapped(more, caps, k) {
        assert KeyCapped(live, caps, k);
        OneMoreOfKey(live, id, meta, k);
      }
      forall i ensures IpCapped(more, caps, i) {
        assert IpCapped(live, caps, i);
        OneMoreOfIp(live, id, meta, i);
      }
    }
    if WithinCaps(more, caps) {
      assert KeyCapped(more, caps, meta.fingerprint) && IpCapped(more, caps, meta.ip);
    }
  }

  lemma SubsetIsSmaller(a: set<string>, b: set<string>)
    requires a <= b
    ensures |a| <= |b|
  {
    assert b == a + (b - a);
  }

  /** Closing connections, for whatever reason, never breaks a cap. */
  lemma ClosingKeepsCaps(live: Live, fewer: Live, caps: Caps)
    requires WithinCaps(live, caps) && fewer.Keys <= live.Keys && forall c <- fewer :: fewer[c] == live[c]
    ensures WithinCaps(fewer, caps)
  {
    SubsetIsSmaller(fewer.Keys, live.Keys);
    forall k ensures KeyCapped(fewer, caps, k) {
      assert KeyCapped(live, caps, k);
      SubsetIsSmaller(HoldersOfKey(fewer, k), HoldersOfKey(live, k));
    }
    forall i ensures IpCapped(fewer, caps, i) {
      assert IpCapped(live, caps, i);
      SubsetIsSmaller(HoldersOfIp(fewer, i), HoldersOfIp(live, i));
    }
  }

  datatype Step = Register(id: string, meta: Meta) | Close(ids: set<string>)

  function Apply(live: Live, step: Step): Live {
    match step
    case Register(id, meta) => live[id := meta]
    case Close(ids) => live - ids
  }

  function Run(steps: seq<Step>): Live {
    if steps == [] then map[] else Apply(Run(steps[..|steps| - 1]), steps[|steps| - 1])
  }

  /** The registration at `k` was checked at `checked` and found to have room. */
  ghost predicate CheckedAt(steps: seq<Step>, caps: Caps, k: nat, checked: nat)
    requires checked <= k < |steps|
  {
    steps[k].Register? ==> steps[k].id !in Run(steps[..k]) && HasRoom(Run(steps[..checked]), caps, steps[k].meta)
  }

  /** Over every run in which each registration follows its check at once, the caps hold throughout. */
  lemma {:induction false} CapsHold(steps: seq<Step>, caps: Caps, n: nat)
    requires n <= |steps| && forall k: nat :: k < |steps| ==> CheckedAt(steps, caps, k, k)
    ensures WithinCaps(Run(steps[..n]), caps)
  {
    if n == 0 {
      assert Run(steps[..0]) == map[];
      forall k ensures KeyCapped(map[], caps, k) { assert HoldersOfKey(map[], k) == {}; }
      forall i ensures IpCapped(map[], caps, i) { assert HoldersOfIp(map[], i) == {}; }
    } else {
      CapsHold(steps, caps, n - 1);
      var before := Run(steps[..n - 1]);
      assert steps[..n][..n - 1] == steps[..n - 1];
      assert CheckedAt(steps, caps, n - 1, n - 1);
      match steps[n - 1]
      case Register(id, meta) => RegistrationKeepsCapsIff(before, caps, id, meta);
      case Close(ids) => ClosingKeepsCaps(before, before - ids, caps);
    }
  }

  /** Two requests that are both checked before either is registered overrun a cap of one. */
  lemma EarlyCheckOverruns(meta: Meta)
    ensures var caps, steps := Caps(1, 1, 1), [Register("a", meta), Register("b", meta)];
            CheckedAt(steps, caps, 0, 0) && CheckedAt(steps, caps, 1, 0) && !WithinCaps(Run(steps), caps)
  {
    var caps, steps := Caps(1, 1, 1), [Register("a", meta), Register("b", meta)];
    assert steps[..0] == [] && steps[..1] == [Register("a", meta)] && steps[..1][..0] == [];
    assert Run(steps[..1]) == map["a" := meta];
    assert Run(steps) == map["a" := meta, "b" := meta];
    assert HoldersOfKey(map[], meta.fingerprint) == {} && HoldersOfIp(map[], meta.ip) == {};
    assert Run(steps).Keys == {"a", "b"};
  }
}

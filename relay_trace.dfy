/**
 * Interleavings of the acceptor and the datagram loop. The two threads of
 * `handle_multiplexing` touch the registry only under its lock, so every
 * execution is some sequence of atomic accept and relay steps; `Run` folds
 * such a sequence over the engine's state.
 */
module RelayTrace {
  import opened Relay

  /**
   * One locked region: an item of `listener.incoming()`, or one datagram's
   * fan-out pass (with its receive and count) and its write outcomes.
   */
  datatype Event =
    | Connect(accepted: bool)
    | Datagram(data: seq<byte>, writeOk: WriteOutcome)

  function Step(s: RelayState, e: Event): RelayState {
    match e
    case Connect(accepted) => AcceptStep(s, accepted)
    case Datagram(data, writeOk) => RelayStep(s, data, writeOk)
  }

  function Run(s: RelayState, es: seq<Event>): RelayState
    decreases |es|
  {
    if es == [] then s else Step(Run(s, es[..|es| - 1]), es[|es| - 1])
  }

  /** The bytes one event writes to a registered handle whose write succeeds. */
  function StepPayload(e: Event): seq<byte> {
    match e
    case Datagram(data, _) => Received(data)
    case Connect(_) => []
  }

  /** The concatenated payloads of the datagrams in `es`, in receipt order, as the buffer holds them. */
  function Payloads(es: seq<Event>): seq<byte>
    decreases |es|
  {
    if es == [] then [] else Payloads(es[..|es| - 1]) + StepPayload(es[|es| - 1])
  }

  /** The handles `lo`, `lo + 1`, ..., `hi - 1`, in accept order. */
  function Range(lo: nat, hi: nat): seq<ClientId>
    requires lo <= hi
  {
    seq(hi - lo, k => lo + k)
  }

  lemma {:induction false} RunAppend(s: RelayState, a: seq<Event>, b: seq<Event>)
    ensures Run(s, a + b) == Run(Run(s, a), b)
    decreases |b|
  {
    if b == [] {
      assert a + b == a;
    } else {
      var init := b[..|b| - 1];
      assert (a + b)[..|a + b| - 1] == a + init;
      RunAppend(s, a, init);
    }
  }

  /** Every reachable state keeps the registry invariant, and handles are never forgotten. */
  lemma {:induction false} RunInv(s: RelayState, es: seq<Event>)
    requires Inv(s)
    ensures Inv(Run(s, es))
    ensures |s.streams| <= |Run(s, es).streams|
    decreases |es|
  {
    if es != [] {
      var prev := Run(s, es[..|es| - 1]);
      RunInv(s, es[..|es| - 1]);
      match es[|es| - 1]
      case Connect(accepted) => AcceptStepSpec(prev, accepted);
      case Datagram(data, writeOk) => RelayStepSpec(prev, data, writeOk);
    }
  }

  /**
   * The counter after any interleaving is its starting value plus the sum
   * of the received lengths, whatever the registry held and however the
   * writes went.
   */
  lemma {:induction false} CounterTotal(s: RelayState, es: seq<Event>)
    ensures Run(s, es).bytes == s.bytes + |Payloads(es)|
    decreases |es|
  {
    if es != [] {
      CounterTotal(s, es[..|es| - 1]);
    }
  }

  /**
   * One step, seen from a single handle `c`: it keeps its place only if it
   * was registered (and, for a datagram, its write succeeded), and its
   * stream grows by the step's payload exactly when it keeps its place.
   */
  lemma StepFromHandle(prev: RelayState, e: Event, c: ClientId)
    requires Inv(prev)
    requires c < |prev.streams|
    ensures var t := Step(prev, e);
      && c < |t.streams|
      && (c in t.clients ==> c in prev.clients && t.streams[c] == prev.streams[c] + StepPayload(e))
      && (c !in t.clients ==> t.streams[c] == prev.streams[c])
      && (c in prev.clients && (e.Datagram? ==> e.writeOk(c)) ==> c in t.clients)
  {
    match e
    case Connect(accepted) =>
      AcceptStepSpec(prev, accepted);
      assert prev.streams[c] + [] == prev.streams[c];
    case Datagram(data, writeOk) =>
      RelayStepSpec(prev, data, writeOk);
  }

  /** An accept extends the filtered sequence of accepted handles by the new handle. */
  lemma AcceptKeepsFilter(prev: RelayState, base: seq<ClientId>, accepted: bool)
    requires Inv(prev) && Bounded(base, |prev.streams|)
    requires prev.clients == Retain(base, InRegistry(prev.clients))
    ensures var t := AcceptStep(prev, accepted);
      t.clients == Retain(base + Range(|prev.streams|, |t.streams|), InRegistry(t.clients))
  {
    var t := AcceptStep(prev, accepted);
    var n := |prev.streams|;
    var inPrev := InRegistry(prev.clients);
    var inT := InRegistry(t.clients);
    forall c | c in base ensures inT(c) == inPrev(c) {
      var k :| 0 <= k < |base| && base[k] == c;
      BoundedAt(base, n, k);
    }
    RetainCongruent(base, inT, inPrev);
    if accepted {
      assert base + Range(n, n + 1) == base + [n];
      RetainSnoc(base, n, inT);
    } else {
      assert base + Range(n, n) == base;
    }
  }

  /** A fan-out pass filters the filtered sequence of accepted handles once more. */
  lemma RelayKeepsFilter(prev: RelayState, base: seq<ClientId>, data: seq<byte>, writeOk: WriteOutcome)
    requires Inv(prev)
    requires prev.clients == Retain(base, InRegistry(prev.clients))
    ensures var t := RelayStep(prev, data, writeOk);
      t.clients == Retain(base + Range(|prev.streams|, |t.streams|), InRegistry(t.clients))
  {
    var t := RelayStep(prev, data, writeOk);
    var inPrev := InRegistry(prev.clients);
    var inT := InRegistry(t.clients);
    var ok := Attempt(writeOk, Received(data));
    assert base + Range(|prev.streams|, |t.streams|) == base;
    RetainCompose(base, inPrev, ok);
    forall c | c in base ensures inPrev(c) && ok(c) <==> inT(c) {
      RetainMember(prev.clients, ok, c);
    }
    RetainCongruent(base, Both(inPrev, ok), inT);
  }

  /** Any step extends the filtered sequence of accepted handles by the handles it accepts. */
  lemma StepKeepsFilter(prev: RelayState, base: seq<ClientId>, e: Event)
    requires Inv(prev) && Bounded(base, |prev.streams|)
    requires prev.clients == Retain(base, InRegistry(prev.clients))
    ensures var t := Step(prev, e);
      t.clients == Retain(base + Range(|prev.streams|, |t.streams|), InRegistry(t.clients))
  {
    match e
    case Connect(accepted) => AcceptKeepsFilter(prev, base, accepted);
    case Datagram(data, writeOk) => RelayKeepsFilter(prev, base, data, writeOk);
  }

  lemma RangeBounded(cs: seq<ClientId>, m: nat, n: nat)
    requires m <= n
    requires forall c :: c in cs ==> c < m
    ensures Bounded(cs + Range(m, n), n)
  {
    var base := cs + Range(m, n);
    forall k | 0 <= k < |base| ensures base[k] < n {
      if k < |cs| {
        assert base[k] in cs;
      }
    }
  }

  lemma RangeSplit(cs: seq<ClientId>, m: nat, n: nat, h: nat)
    requires m <= n <= h
    ensures (cs + Range(m, n)) + Range(n, h) == cs + Range(m, h)
  {
  }

  /**
   * After any interleaving the registry is the sequence of the initial
   * handles followed by all handles accepted since, with some removed and
   * the order unchanged.
   */
  lemma {:induction false} RegistryFromAccepted(s: RelayState, es: seq<Event>)
    requires Inv(s)
    ensures var t := Run(s, es);
      |s.streams| <= |t.streams| &&
      t.clients == Retain(s.clients + Range(|s.streams|, |t.streams|), InRegistry(t.clients))
    decreases |es|
  {
    RunInv(s, es);
    var m := |s.streams|;
    if es == [] {
      assert s.clients + Range(m, m) == s.clients;
      RetainAll(s.clients, InRegistry(s.clients));
    } else {
      var init := es[..|es| - 1];
      var prev := Run(s, init);
      RegistryFromAccepted(s, init);
      RunInv(s, init);
      RangeBounded(s.clients, m, |prev.streams|);
      StepKeepsFilter(prev, s.clients + Range(m, |prev.streams|), es[|es| - 1]);
      RangeSplit(s.clients, m, |prev.streams|, |Run(s, es).streams|);
    }
  }

  /**
   * A handle that has left the registry never returns to it and is never
   * sent anything again.
   */
  lemma {:induction false} EvictedStaysOut(s: RelayState, es: seq<Event>, c: ClientId)
    requires Inv(s)
    requires c < |s.streams| && c !in s.clients
    ensures var t := Run(s, es);
      c < |t.streams| && c !in t.clients && t.streams[c] == s.streams[c]
    decreases |es|
  {
    if es != [] {
      EvictedStaysOut(s, es[..|es| - 1], c);
      RunInv(s, es[..|es| - 1]);
      StepFromHandle(Run(s, es[..|es| - 1]), es[|es| - 1], c);
    }
  }

  lemma Extended(now: seq<byte>, before: seq<byte>, start: seq<byte>, earlier: seq<byte>, last: seq<byte>)
    requires before == start + earlier && now == before + last
    ensures now == start + (earlier + last)
  {
  }

  /** The last step of an interleaving, seen from a single handle `c` that existed at the start. */
  lemma RunFromHandle(s: RelayState, es: seq<Event>, c: ClientId)
    requires Inv(s) && es != []
    requires c < |s.streams|
    ensures var prev, t, e := Run(s, es[..|es| - 1]), Run(s, es), es[|es| - 1];
      && c < |prev.streams| && c < |t.streams|
      && (c in t.clients ==> c in prev.clients && t.streams[c] == prev.streams[c] + StepPayload(e))
      && (c !in t.clients ==> t.streams[c] == prev.streams[c])
      && (c in prev.clients && (e.Datagram? ==> e.writeOk(c)) ==> c in t.clients)
      && Payloads(es) == Payloads(es[..|es| - 1]) + StepPayload(e)
  {
    RunInv(s, es[..|es| - 1]);
    StepFromHandle(Run(s, es[..|es| - 1]), es[|es| - 1], c);
  }

  /**
   * A handle registered at the start and still registered at the end was
   * sent every datagram's payload, in receipt order.
   */
  lemma {:induction false} SurvivorReceivesAll(s: RelayState, es: seq<Event>, c: ClientId)
    requires Inv(s)
    requires c < |s.streams|
    ensures var t := Run(s, es);
      c < |t.streams| && (c in t.clients ==> c in s.clients && t.streams[c] == s.streams[c] + Payloads(es))
    decreases |es|
  {
    if es == [] {
      assert s.streams[c] + [] == s.streams[c];
    } else {
      var init, e := es[..|es| - 1], es[|es| - 1];
      SurvivorReceivesAll(s, init, c);
      RunFromHandle(s, es, c);
      if c in Run(s, es).clients {
        Extended(Run(s, es).streams[c], Run(s, init).streams[c], s.streams[c], Payloads(init), StepPayload(e));
      }
    }
  }

  /**
   * A registered handle is sent the datagrams' payloads in receipt order
   * for as long as it stays registered: its stream grows by the payloads of
   * some prefix of the interleaving, and by all of them if it is still
   * registered at the end.
   */
  lemma {:induction false} MemberReceives(s: RelayState, es: seq<Event>, c: ClientId)
    requires Inv(s)
    requires c in s.clients
    ensures var t := Run(s, es);
      && c < |t.streams|
      && (c in t.clients ==> t.streams[c] == s.streams[c] + Payloads(es))
      && exists k :: 0 <= k <= |es| && t.streams[c] == s.streams[c] + Payloads(es[..k])
    decreases |es|
  {
    SurvivorReceivesAll(s, es, c);
    var t := Run(s, es);
    if c in t.clients {
      assert es[..|es|] == es;
    } else {
      var init := es[..|es| - 1];
      var prev := Run(s, init);
      MemberReceives(s, init, c);
      RunInv(s, init);
      StepFromHandle(prev, es[|es| - 1], c);
      var k :| 0 <= k <= |init| && prev.streams[c] == s.streams[c] + Payloads(init[..k]);
      assert es[..k] == init[..k];
    }
  }

  /**
   * A handle whose every write succeeds stays registered, so it receives
   * the concatenation of all payloads, in receipt order (fan-out
   * equivalence).
   */
  lemma {:induction false} WritableMemberReceivesAll(s: RelayState, es: seq<Event>, c: ClientId)
    requires Inv(s)
    requires c in s.clients
    requires forall k :: 0 <= k < |es| && es[k].Datagram? ==> es[k].writeOk(c)
    ensures var t := Run(s, es);
      c < |t.streams| && c in t.clients && t.streams[c] == s.streams[c] + Payloads(es)
    decreases |es|
  {
    if es != [] {
      var init := es[..|es| - 1];
      WritableMemberReceivesAll(s, init, c);
      RunInv(s, init);
      StepFromHandle(Run(s, init), es[|es| - 1], c);
    }
    SurvivorReceivesAll(s, es, c);
  }

  /**
   * A handle accepted between `before` and `after` starts with an empty
   * stream and is only ever sent payloads of datagrams in `after`: nothing
   * fanned out before it joined.
   */
  lemma LateJoinerIsolation(s: RelayState, before: seq<Event>, after: seq<Event>)
    requires Inv(s)
    ensures var c := |Run(s, before).streams|;
      var t := Run(s, before + [Connect(true)] + after);
      && c < |t.streams|
      && (c in t.clients ==> t.streams[c] == Payloads(after))
      && exists k :: 0 <= k <= |after| && t.streams[c] == Payloads(after[..k])
  {
    var joined := before + [Connect(true)];
    var prev := Run(s, before);
    var c := |prev.streams|;
    assert joined[..|joined| - 1] == before;
    var mid := Run(s, joined);
    RunInv(s, before);
    AcceptStepSpec(prev, true);
    assert c in mid.clients && mid.streams[c] == [];
    RunAppend(s, joined, after);
    MemberReceives(mid, after, c);
    var t := Run(mid, after);
    var k :| 0 <= k <= |after| && t.streams[c] == mid.streams[c] + Payloads(after[..k]);
    assert [] + Payloads(after[..k]) == Payloads(after[..k]);
    assert [] + Payloads(after) == Payloads(after);
  }
}

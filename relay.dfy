/**
 * The relay engine of `handle_multiplexing` (src/main.rs): a registry of
 * subscriber stream handles, a byte counter, and the two steps that change
 * them, the acceptor's `push` and the datagram loop's count-and-`retain`.
 *
 * The two lock-protected regions are modelled as atomic sequential steps.
 * `RelayState` is the value view of the engine and `AcceptStep`/`RelayStep`
 * are its specification; class `Multiplexer` carries the same state in
 * fields and updates it in place, and its methods are proved against the
 * two step functions.
 */
module Relay {
  import opened Options

  /** One octet of a datagram. */
  newtype byte = x: int | 0 <= x < 256

  /** Capacity of the receive buffer, `[0; 8192]`. */
  const BufferSize: nat := 8192

  /** A subscriber stream handle. Handles are numbered in the order the acceptor produced them. */
  type ClientId = nat

  /** Outcome of `write_all` on each handle during one fan-out pass (true = `Ok`). */
  type WriteOutcome = ClientId -> bool

  function Min(a: nat, b: nat): nat {
    if a <= b then a else b
  }

  predicate StrictlyIncreasing(cs: seq<ClientId>) {
    forall i, j :: 0 <= i < j < |cs| ==> cs[i] < cs[j]
  }

  predicate Distinct(cs: seq<ClientId>) {
    forall i, j :: 0 <= i < j < |cs| ==> cs[i] != cs[j]
  }

  /**
   * The bytes `recv_from` leaves valid in the 8192-byte buffer for one
   * datagram: the datagram itself, silently cut at the buffer's capacity.
   */
  function Received(datagram: seq<byte>): (payload: seq<byte>)
    ensures |payload| <= BufferSize
    ensures payload <= datagram
    ensures |datagram| <= BufferSize ==> payload == datagram
    ensures |datagram| > BufferSize ==> |payload| == BufferSize
  {
    datagram[..Min(|datagram|, BufferSize)]
  }

  /**
   * The write outcome of one pass as `write_all` reports it: writing an
   * empty slice succeeds without touching the socket, so a zero-length
   * payload cannot fail on any handle.
   */
  function Attempt(writeOk: WriteOutcome, payload: seq<byte>): WriteOutcome
  {
    if payload == [] then c => true else writeOk
  }

  /**
   * `Vec::retain`: the handles for which `keep` holds, in their original
   * order.
   */
  function Retain(cs: seq<ClientId>, keep: ClientId -> bool): (r: seq<ClientId>)
    ensures |r| <= |cs|
  {
    if cs == [] then []
    else
      var rest := Retain(cs[..|cs| - 1], keep);
      var c := cs[|cs| - 1];
      assert cs == cs[..|cs| - 1] + [c];
      if keep(c) then rest + [c] else rest
  }

  /**
   * The streams after `payload` has been written, one handle after another,
   * to every handle in `to`; a handle outside `to` receives nothing.
   */
  function Deliver(streams: seq<seq<byte>>, to: seq<ClientId>, payload: seq<byte>): (r: seq<seq<byte>>)
    ensures |r| == |streams|
  {
    if to == [] then streams
    else
      var before := Deliver(streams, to[..|to| - 1], payload);
      var c := to[|to| - 1];
      if c < |before| then before[c := before[c] + payload] else before
  }

  /**
   * The engine's state: the registry (`clients`), the byte counter
   * (`my_data`) and, for the model only, the bytes each handle has been sent
   * so far. `|streams|` is the number of handles ever accepted.
   */
  datatype RelayState = RelayState(clients: seq<ClientId>, bytes: nat, streams: seq<seq<byte>>)

  /** Handles sit in the registry in accept order and each was accepted. */
  ghost predicate Inv(s: RelayState) {
    && StrictlyIncreasing(s.clients)
    && forall c :: c in s.clients ==> c < |s.streams|
  }

  const Initial: RelayState := RelayState([], 0, [])

  /** One turn of the acceptor: `clients.push` of a new handle, or nothing on an accept error. */
  function AcceptStep(s: RelayState, accepted: bool): RelayState {
    if accepted then RelayState(s.clients + [|s.streams|], s.bytes, s.streams + [[]]) else s
  }

  /**
   * One turn of the datagram loop: count the received length, then write
   * the valid prefix of the buffer to every registered handle, keeping
   * exactly the handles whose write succeeded.
   */
  function RelayStep(s: RelayState, datagram: seq<byte>, writeOk: WriteOutcome): RelayState {
    var payload := Received(datagram);
    var survivors := Retain(s.clients, Attempt(writeOk, payload));
    RelayState(survivors, s.bytes + |payload|, Deliver(s.streams, survivors, payload))
  }

  /** A handle survives `Retain` exactly when it was present and `keep` holds for it. */
  lemma {:induction false} RetainMember(cs: seq<ClientId>, keep: ClientId -> bool, c: ClientId)
    ensures c in Retain(cs, keep) <==> c in cs && keep(c)
  {
    if cs != [] {
      var init, last := cs[..|cs| - 1], cs[|cs| - 1];
      assert cs == init + [last];
      RetainMember(init, keep, c);
    }
  }

  /**
   * Writing to the distinct handles `to` extends each of their streams by
   * `payload` and leaves every other stream as it was.
   */
  lemma {:induction false} DeliverAt(streams: seq<seq<byte>>, to: seq<ClientId>, payload: seq<byte>, c: nat)
    requires Distinct(to)
    requires c < |streams|
    ensures Deliver(streams, to, payload)[c] == if c in to then streams[c] + payload else streams[c]
  {
    if to != [] {
      var init, last := to[..|to| - 1], to[|to| - 1];
      assert to == init + [last];
      assert last !in init;
      DeliverAt(streams, init, payload, c);
    }
  }

  lemma {:induction false} RetainIncreasing(cs: seq<ClientId>, keep: ClientId -> bool)
    requires StrictlyIncreasing(cs)
    ensures StrictlyIncreasing(Retain(cs, keep))
  {
    if cs != [] {
      var init, c := cs[..|cs| - 1], cs[|cs| - 1];
      RetainIncreasing(init, keep);
      RetainSnoc(init, c, keep);
      if keep(c) {
        var rest := Retain(init, keep);
        forall x | x in rest ensures x < c {
          RetainMember(init, keep, x);
          var i :| 0 <= i < |init| && init[i] == x;
        }
        AppendIncreasing(rest, c);
      }
    }
  }

  lemma AppendIncreasing(cs: seq<ClientId>, c: ClientId)
    requires StrictlyIncreasing(cs)
    requires forall x :: x in cs ==> x < c
    ensures StrictlyIncreasing(cs + [c])
  {
    forall i, j | 0 <= i < j < |cs| + 1 ensures (cs + [c])[i] < (cs + [c])[j] {
      if j == |cs| {
        assert cs[i] in cs;
      }
    }
  }

  lemma RetainSnoc(cs: seq<ClientId>, c: ClientId, keep: ClientId -> bool)
    ensures Retain(cs + [c], keep) == if keep(c) then Retain(cs, keep) + [c] else Retain(cs, keep)
  {
    assert (cs + [c])[..|cs|] == cs;
  }

  lemma DeliverSnoc(streams: seq<seq<byte>>, to: seq<ClientId>, c: ClientId, payload: seq<byte>)
    requires c < |streams|
    ensures var before := Deliver(streams, to, payload);
      Deliver(streams, to + [c], payload) == before[c := before[c] + payload]
  {
    assert (to + [c])[..|to|] == to;
  }

  /** `Retain` only looks at `keep` on the handles it is given. */
  lemma {:induction false} RetainCongruent(cs: seq<ClientId>, p: ClientId -> bool, q: ClientId -> bool)
    requires forall c :: c in cs ==> p(c) == q(c)
    ensures Retain(cs, p) == Retain(cs, q)
  {
    if cs != [] {
      var init, last := cs[..|cs| - 1], cs[|cs| - 1];
      assert last in cs;
      forall c | c in init ensures p(c) == q(c) {
        assert c in cs;
      }
      RetainCongruent(init, p, q);
    }
  }

  /** The condition "is one of `cs`". */
  function InRegistry(cs: seq<ClientId>): ClientId -> bool
  {
    (c: ClientId) => c in cs
  }

  /** The condition "both `p` and `q` hold". */
  function Both(p: ClientId -> bool, q: ClientId -> bool): ClientId -> bool
  {
    (c: ClientId) => p(c) && q(c)
  }

  /** Two filtering passes keep the same handles, in the same order, as one pass with both conditions. */
  lemma {:induction false} RetainCompose(cs: seq<ClientId>, p: ClientId -> bool, q: ClientId -> bool)
    ensures Retain(Retain(cs, p), q) == Retain(cs, Both(p, q))
  {
    if cs != [] {
      var init, last := cs[..|cs| - 1], cs[|cs| - 1];
      RetainCompose(init, p, q);
      if p(last) {
        RetainSnoc(Retain(init, p), last, q);
      }
    }
  }

  lemma IncreasingIsDistinct(cs: seq<ClientId>)
    requires StrictlyIncreasing(cs)
    ensures Distinct(cs)
  {
  }

  /** A successful accept appends exactly one new, empty handle at the end; an error changes nothing. */
  lemma AcceptStepSpec(s: RelayState, accepted: bool)
    requires Inv(s)
    ensures Inv(AcceptStep(s, accepted))
    ensures accepted ==>
      var t := AcceptStep(s, accepted);
      && t.clients == s.clients + [|s.streams|]
      && |s.streams| !in s.clients
      && t.bytes == s.bytes
      && |t.streams| == |s.streams| + 1
      && t.streams[..|s.streams|] == s.streams
      && t.streams[|s.streams|] == []
    ensures !accepted ==> AcceptStep(s, accepted) == s
  {
    if accepted {
      AppendIncreasing(s.clients, |s.streams|);
    }
  }

  /**
   * The relay step: the counter grows by exactly the received length
   * (at most 8192), the registry keeps exactly the handles whose write
   * succeeded, in their order, and each of them, and no other handle, is
   * sent exactly the valid prefix of the buffer.
   */
  lemma RelayStepSpec(s: RelayState, datagram: seq<byte>, writeOk: WriteOutcome)
    requires Inv(s)
    ensures var t := RelayStep(s, datagram, writeOk);
      && Inv(t)
      && t.bytes == s.bytes + |Received(datagram)|
      && |Received(datagram)| == Min(|datagram|, BufferSize)
      && (forall c :: c in t.clients <==> c in s.clients && (datagram == [] || writeOk(c)))
      && |t.streams| == |s.streams|
      && (forall c :: 0 <= c < |s.streams| ==>
            t.streams[c] == if c in t.clients then s.streams[c] + Received(datagram) else s.streams[c])
  {
    var payload := Received(datagram);
    var ok := Attempt(writeOk, payload);
    var survivors := Retain(s.clients, ok);
    RetainIncreasing(s.clients, ok);
    IncreasingIsDistinct(survivors);
    forall c ensures c in survivors <==> c in s.clients && (datagram == [] || writeOk(c)) {
      RetainMember(s.clients, ok, c);
    }
    forall c | 0 <= c < |s.streams|
      ensures Deliver(s.streams, survivors, payload)[c] == if c in survivors then s.streams[c] + payload else s.streams[c]
    {
      DeliverAt(s.streams, survivors, payload, c);
    }
  }

  /** With an empty registry the pass writes nothing, yet the datagram is still counted. */
  lemma RelayEmptyRegistry(s: RelayState, datagram: seq<byte>, writeOk: WriteOutcome)
    requires s.clients == []
    ensures RelayStep(s, datagram, writeOk) == RelayState([], s.bytes + |Received(datagram)|, s.streams)
  {
  }

  /**
   * A zero-length datagram still runs the pass, but every `write_all` of
   * the empty slice succeeds: no handle is evicted and no stream changes.
   */
  lemma RelayEmptyDatagram(s: RelayState, writeOk: WriteOutcome)
    requires Inv(s)
    ensures RelayStep(s, [], writeOk) == s
  {
    var ok := Attempt(writeOk, []);
    assert Retain(s.clients, ok) == s.clients by {
      RetainAll(s.clients, ok);
    }
    IncreasingIsDistinct(s.clients);
    var t := RelayStep(s, [], writeOk);
    forall c | 0 <= c < |s.streams| ensures t.streams[c] == s.streams[c] {
      DeliverAt(s.streams, s.clients, [], c);
      assert s.streams[c] + [] == s.streams[c];
    }
  }

  lemma {:induction false} RetainAll(cs: seq<ClientId>, keep: ClientId -> bool)
    requires forall c :: c in cs ==> keep(c)
    ensures Retain(cs, keep) == cs
  {
    if cs != [] {
      RetainAll(cs[..|cs| - 1], keep);
    }
  }

  /**
   * A datagram longer than the buffer is relayed cut to its first 8192
   * bytes, and only those are counted.
   */
  lemma RelayOversizedDatagram(s: RelayState, datagram: seq<byte>, writeOk: WriteOutcome, c: ClientId)
    requires Inv(s)
    requires |datagram| > BufferSize
    requires c in s.clients && writeOk(c)
    ensures var t := RelayStep(s, datagram, writeOk);
      && t.bytes == s.bytes + BufferSize
      && t.streams[c] == s.streams[c] + datagram[..BufferSize]
  {
    RelayStepSpec(s, datagram, writeOk);
  }

  /**
   * recv_from into `buf`: the first `amt` bytes of the buffer become the
   * (possibly cut) datagram and the rest of the buffer is left as it was.
   */
  method Receive(buf: array<byte>, datagram: seq<byte>) returns (amt: nat)
    modifies buf
    ensures amt == Min(|datagram|, buf.Length)
    ensures buf[..amt] == datagram[..amt]
    ensures buf[amt..] == old(buf[amt..])
  {
    amt := Min(|datagram|, buf.Length);
    forall i | 0 <= i < amt {
      buf[i] := datagram[i];
    }
  }

  /**
   * Every handle in `cs` is below `n`: the second conjunct of `Inv`, stated
   * over positions rather than membership. The fan-out loop reads the
   * registry by position while it overwrites it, so it needs this form;
   * `BoundedMembers` converts the membership form into it.
   */
  predicate Bounded(cs: seq<ClientId>, n: nat) {
    forall k :: 0 <= k < |cs| ==> cs[k] < n
  }

  lemma BoundedAt(cs: seq<ClientId>, n: nat, k: nat)
    requires Bounded(cs, n) && k < |cs|
    ensures cs[k] < n
  {
  }

  lemma BoundedMembers(cs: seq<ClientId>, n: nat)
    requires forall c :: c in cs ==> c < n
    ensures Bounded(cs, n)
  {
    forall k | 0 <= k < |cs| ensures cs[k] < n {
      assert cs[k] in cs;
    }
  }

  /**
   * The state of an in-place `retain` after `read` elements: the first
   * `kept` slots hold the survivors so far and the slots from `read` on
   * are still untouched.
   */
  ghost predicate CompactedUpTo(cur: seq<ClientId>, original: seq<ClientId>, read: nat, kept: nat, keep: ClientId -> bool) {
    && kept <= read <= |cur| == |original|
    && cur[..kept] == Retain(original[..read], keep)
    && cur[read..] == original[read..]
  }

  lemma CompactStep(cur: seq<ClientId>, original: seq<ClientId>, read: nat, kept: nat, keep: ClientId -> bool)
    requires CompactedUpTo(cur, original, read, kept, keep) && read < |cur|
    ensures cur[read] == original[read]
    ensures keep(cur[read]) ==>
      && cur[kept := cur[read]][..kept + 1] == cur[..kept] + [cur[read]]
      && CompactedUpTo(cur[kept := cur[read]], original, read + 1, kept + 1, keep)
    ensures !keep(cur[read]) ==> CompactedUpTo(cur, original, read + 1, kept, keep)
  {
    var c := cur[read];
    assert c == cur[read..][0] == original[read..][0];
    assert original[..read + 1] == original[..read] + [c];
    RetainSnoc(original[..read], c, keep);
    if keep(c) {
      var next := cur[kept := c];
      assert next[..kept + 1] == cur[..kept] + [c];
      assert next[read + 1..] == cur[read + 1..] == original[read + 1..] by {
        assert cur[read + 1..] == cur[read..][1..];
        assert original[read + 1..] == original[read..][1..];
      }
    } else {
      assert cur[read + 1..] == cur[read..][1..];
      assert original[read + 1..] == original[read..][1..];
    }
  }

  lemma CompactedAll(cur: seq<ClientId>, original: seq<ClientId>, kept: nat, keep: ClientId -> bool)
    requires CompactedUpTo(cur, original, |cur|, kept, keep)
    ensures cur[..kept] == Retain(original, keep)
  {
    assert original[..|cur|] == original;
  }

  /**
   * The state of the fan-out pass after `read` handles: the registry is
   * compacted that far and exactly the handles kept so far have been sent
   * `payload`.
   */
  ghost predicate PassedUpTo(cur: seq<ClientId>, streams: seq<seq<byte>>, original: seq<ClientId>, initial: seq<seq<byte>>,
                             payload: seq<byte>, read: nat, kept: nat, keep: ClientId -> bool) {
    && CompactedUpTo(cur, original, read, kept, keep)
    && streams == Deliver(initial, cur[..kept], payload)
  }

  lemma PassStep(cur: seq<ClientId>, streams: seq<seq<byte>>, original: seq<ClientId>, initial: seq<seq<byte>>,
                 payload: seq<byte>, read: nat, kept: nat, keep: ClientId -> bool)
    requires PassedUpTo(cur, streams, original, initial, payload, read, kept, keep)
    requires read < |cur| && Bounded(original, |initial|)
    ensures cur[read] < |streams|
    ensures keep(cur[read]) ==>
      PassedUpTo(cur[kept := cur[read]], streams[cur[read] := streams[cur[read]] + payload],
                 original, initial, payload, read + 1, kept + 1, keep)
    ensures !keep(cur[read]) ==> PassedUpTo(cur, streams, original, initial, payload, read + 1, kept, keep)
  {
    CompactStep(cur, original, read, kept, keep);
    BoundedAt(original, |initial|, read);
    if keep(cur[read]) {
      DeliverSnoc(initial, cur[..kept], cur[read], payload);
    }
  }

  /** The engine's shared state, updated in place by the acceptor and the datagram loop. */
  class Multiplexer {
    /** The registry, `clients`. */
    var clients: seq<ClientId>
    /** The throughput counter, `my_data`. */
    var bytes: nat
    /** The identity the next accepted stream handle gets. */
    var nextId: nat
    /** What each handle has been sent so far (model only). */
    ghost var streams: seq<seq<byte>>

    ghost predicate Valid()
      reads this
    {
      |streams| == nextId && Inv(Model())
    }

    ghost function Model(): RelayState
      reads this
    {
      RelayState(clients, bytes, streams)
    }

    constructor ()
      ensures Valid()
      ensures Model() == Initial && nextId == 0
    {
      clients := [];
      bytes := 0;
      nextId := 0;
      streams := [];
    }

    /**
     * The acceptor's handling of one item of `listener.incoming()`: on `Ok`
     * the new handle is pushed onto the registry and returned; on `Err`
     * nothing changes.
     */
    method Accept(accepted: bool) returns (id: Option<ClientId>)
      requires Valid()
      modifies this
      ensures Valid()
      ensures Model() == AcceptStep(old(Model()), accepted)
      ensures id == if accepted then Some(old(nextId)) else None
      ensures nextId == if accepted then old(nextId) + 1 else old(nextId)
    {
      if accepted {
        AppendIncreasing(clients, nextId);
        id := Some(nextId);
        clients := clients + [nextId];
        streams := streams + [[]];
        nextId := nextId + 1;
      } else {
        id := None;
      }
    }

    /**
     * One iteration of the datagram loop: receive into a fresh zeroed
     * 8192-byte buffer, add the received length to the counter, then run
     * the fan-out pass over the registry.
     */
    method RelayDatagram(datagram: seq<byte>, writeOk: WriteOutcome)
      requires Valid()
      modifies this`clients, this`bytes, this`streams
      ensures Valid()
      ensures Model() == RelayStep(old(Model()), datagram, writeOk)
      ensures nextId == old(nextId)
    {
      var buf := new byte[BufferSize](_ => 0);
      var amt := Receive(buf, datagram);
      assert buf[..amt] == Received(datagram);
      bytes := bytes + amt;
      ghost var registry := clients;
      BoundedMembers(registry, nextId);
      FanOut(buf, amt, writeOk);
      ghost var ok := Attempt(writeOk, buf[..amt]);
      RetainIncreasing(registry, ok);
      forall x | x in clients ensures x < nextId {
        RetainMember(registry, ok, x);
      }
    }

    /**
     * The registry's `retain` pass: visits every handle once, in order,
     * writes the valid prefix of the buffer to it, and compacts the
     * registry in place so that exactly the handles whose write succeeded
     * remain, in their order.
     */
    method FanOut(buf: array<byte>, amt: nat, writeOk: WriteOutcome)
      requires |streams| == nextId && Bounded(clients, nextId)
      requires amt <= buf.Length
      modifies this`clients, this`streams
      ensures clients == Retain(old(clients), Attempt(writeOk, buf[..amt]))
      ensures streams == Deliver(old(streams), clients, buf[..amt])
      ensures |streams| == nextId
    {
      ghost var original, initial := clients, streams;
      ghost var payload := buf[..amt];
      ghost var ok := Attempt(writeOk, payload);
      assert (payload == []) == (amt == 0);
      var read, kept := 0, 0;
      while read < |clients|
        invariant PassedUpTo(clients, streams, original, initial, payload, read, kept, ok)
      {
        var c := clients[read];
        PassStep(clients, streams, original, initial, payload, read, kept, ok);
        var written := amt == 0 || writeOk(c);
        assert written == ok(c);
        if written {
          streams := streams[c := streams[c] + payload];
          clients := clients[kept := c];
          kept := kept + 1;
        }
        read := read + 1;
      }
      CompactedAll(clients, original, kept, ok);
      clients := clients[..kept];
    }
  }
}

# UDP multiplexer: relay engine and command-line scan

The UDP multiplexer (`src/main.rs`) is a one-source, many-sink relay. One
thread receives datagrams on a UDP socket. Another accepts TCP connections
and adds each new stream to a shared registry, `clients`. Every received
datagram:

- is counted in a shared byte counter, `my_data`;
- is written with `write_all` to every registered stream;
- causes each stream whose write fails to be dropped from the registry in
  the same `retain` pass.

Before any of this, `main` scans its command-line arguments. It needs four
values: a TCP port (`-t`), a UDP port (`-u`), a TCP bind address (`-s`) and a
UDP bind address (`-c`).

The project models the engine's two locked regions and the argument scan,
and proves properties of both.

- `Relay` holds the engine.
  - `RelayState` is the value view: the registry, the counter, and, for the
    model only, every handle's delivered byte stream.
  - `AcceptStep` and `RelayStep` specify the acceptor's `push` and one turn
    of the datagram loop.
  - Class `Multiplexer` holds the same state in fields and updates it in
    place. `Accept` is the push. `RelayDatagram` receives into a fresh
    8192-byte array, then bumps the counter. `FanOut` is `retain`, written
    as an in-place compaction of the registry. Each method is proved
    against the step functions.
- `RelayTrace` folds any interleaving of the two steps over the state
  (`Run`). It proves the multi-step properties: survivors, eviction,
  fan-out equivalence and late joiners.
- `Args` holds the scan. `Scan` gives the scan's meaning one token at a
  time. `ScanArgs` is the source's loop over four mutable `Option`
  variables with early returns, proved equal to `Scan`.
- `ArgsLemmas` states what the scan does. It stops at the first `-h` or
  invalid flag. It starts exactly when all four slots are set. The last
  occurrence of a flag wins. Unknown tokens are skipped.
- `Options` holds the `Option` type.

Stream handles are opaque identities numbered in accept order. Every
accepted connection gets a new handle, so the registry is strictly
increasing in accept order. There is no de-duplication: a peer that
connects twice holds two handles.

The outcome of `write_all` on each handle in one pass is an oracle,
`WriteOutcome`. Each `Datagram` event carries its own oracle. Writing an
empty slice succeeds without touching the socket (the standard `write_all`
returns at once), so with a zero-length datagram no handle is evicted.

The library parsers `str::parse::<u16>` and `str::parse::<IpAddr>` are the
`Parsers` parameter. `is_ipv4` is the `V4` case of `IpAddr`.

Two behaviours of the code are stated as they are:

- Insertion order does not matter for correctness, yet `retain` keeps the
  survivors in accept order, and the model proves that it does.
- A datagram longer than the 8192-byte buffer is not rejected: on Linux
  and other Unix systems `recv_from` cuts it to its first 8192 bytes,
  which are counted and relayed (`Relay.RelayOversizedDatagram`).

## Model

| member | source | states |
|---|---|---|
| Relay.Received | src/main.rs:62-63 | The bytes relayed for a datagram are a prefix of it, at most 8192 long. They are the whole datagram when it fits in the buffer, and exactly 8192 bytes when it does not. |
| Relay.Retain | src/main.rs:68-77 | The pass never grows the registry. |
| Relay.RetainMember | src/main.rs:68-77 | A handle remains after `retain` if and only if it was registered and its write succeeded. |
| Relay.RetainIncreasing | src/main.rs:68-77 | `retain` keeps the survivors in their original relative order: a registry in accept order stays in accept order. |
| Relay.RetainCompose | src/main.rs:68-77 | Two successive passes keep the same handles, in the same order, as one pass that requires both writes to succeed. |
| Relay.Deliver | src/main.rs:67-77 | Writing to the registry creates and forgets no handle stream. |
| Relay.DeliverAt | src/main.rs:67-77 | After the writes, each of the distinct target handles has received exactly the payload once more. Every other handle's stream is unchanged. |
| Relay.AcceptStepSpec | src/main.rs:33-41 | A successful accept appends exactly one handle, new and not yet registered, at the end of the registry. Its stream starts empty, and existing handles, streams and the counter are unchanged. An accept error changes nothing. The registry invariant is kept. |
| Relay.RelayStepSpec | src/main.rs:61-78 | The counter grows by exactly the received length, which is min(datagram length, 8192). The new registry holds exactly the registered handles whose write succeeded. Each of them, and no other handle, is sent exactly the valid prefix of the buffer. The registry invariant is kept. |
| Relay.RelayEmptyRegistry | src/main.rs:64-78 | With an empty registry the step leaves the registry empty and writes nothing, but still counts the datagram. |
| Relay.RelayEmptyDatagram | src/main.rs:62-77 | A zero-length datagram leaves the whole state unchanged: no eviction, no change to any stream, nothing added to the counter. |
| Relay.RelayOversizedDatagram | src/main.rs:62-69 | A datagram longer than 8192 bytes is counted as 8192 bytes. Each surviving handle is sent only its first 8192 bytes. |
| Relay.Receive | src/main.rs:62-63 | `recv_from` fills the first min(datagram length, buffer length) bytes of the buffer with the datagram's leading bytes. It leaves the rest of the buffer untouched and returns that length. |
| Relay.Multiplexer.constructor | src/main.rs:18-19 | The engine starts with an empty registry, a zero counter and no accepted handles. |
| Relay.Multiplexer.Accept | src/main.rs:33-41 | The registry and streams become `AcceptStep` of the old state. On success the new handle is returned and the next identity advances; on an error nothing changes. The registry invariant is kept. |
| Relay.Multiplexer.RelayDatagram | src/main.rs:61-78 | Receiving into a fresh 8192-byte buffer, counting and then fanning out turns the state into `RelayStep` of the old state. The registry invariant is kept. |
| Relay.Multiplexer.FanOut | src/main.rs:67-77 | The in-place `retain` pass leaves exactly the filtered registry. Every survivor's stream is extended by `buf[..amt]`. |
| RelayTrace.RunInv | src/main.rs:33-78 | Every interleaving of accepts and datagrams keeps the registry invariant and never forgets a handle. |
| RelayTrace.CounterTotal | src/main.rs:63-65 | After any interleaving the counter equals its start value plus the sum of the received lengths, whatever the registry held and however the writes went. |
| RelayTrace.RegistryFromAccepted | src/main.rs:37-77 | After any interleaving the registry is a subsequence, in order, of the initial registry followed by every handle accepted since. |
| RelayTrace.EvictedStaysOut | src/main.rs:68-77 | A handle that has left the registry never comes back and is never sent anything again. |
| RelayTrace.SurvivorReceivesAll | src/main.rs:61-78 | A handle that existed at the start and is registered at the end was registered at the start. Its stream has been extended by every datagram's payload, in receipt order. |
| RelayTrace.MemberReceives | src/main.rs:61-78 | A registered handle's stream grows by the payloads of some prefix of the interleaving, in receipt order. It grows by all of them if the handle is still registered at the end. |
| RelayTrace.WritableMemberReceivesAll | src/main.rs:61-78 | A registered handle whose writes all succeed stays registered. Its stream gains the concatenation of all payloads in receipt order (fan-out equivalence). |
| RelayTrace.LateJoinerIsolation | src/main.rs:33-78 | A handle accepted part-way through is sent only payloads of fan-out passes that came after it joined, never an earlier one. If it is still registered at the end it has received all of them. |
| Args.ScanArgs | src/main.rs:124-252 | The source's loop over four mutable slots, with its early returns, computes exactly the outcome `Scan` specifies. |
| ArgsLemmas.ExamineSetIsValid | src/main.rs:143-238 | A flag sets its slot only with a value of its kind: a port greater than 0, or an IPv4 address. |
| ArgsLemmas.FinishSpec | src/main.rs:246-252 | The final check never yields `ShowHelp` or `Rejected`: an unset slot gives `Incomplete` (a message and the help), and it starts if and only if all four slots hold a value, passing exactly those values on. |
| ArgsLemmas.ScanStopsAtFirst | src/main.rs:137-238 | The scan ends at the first `-h` or invalid flag, and that token alone decides the outcome. An invalid flag is one with no value, a port that is not an integer or is 0, or an address that does not parse or is not IPv4. |
| ArgsLemmas.ScanHaltsIff | src/main.rs:127-244 | Fewer than two arguments give `ShowHelp`. The outcome is `ShowHelp` or `Rejected` if and only if there are fewer than two arguments or some argument stops the scan; otherwise it is `Incomplete` or `Start`. |
| ArgsLemmas.ScanStartIff | src/main.rs:137-251 | The multiplexer is started if and only if there are at least two arguments, no argument stops the scan, and each of the four flags is set at least once. |
| ArgsLemmas.ScanLastOccurrenceWins | src/main.rs:143-239 | When the multiplexer is started, each flag's value is the one given at that flag's last occurrence. |
| ArgsLemmas.ScanStartIsValid | src/main.rs:143-248 | The multiplexer is only ever started with non-zero ports and IPv4 addresses. |
| ArgsLemmas.UnknownTokenIgnored | src/main.rs:240-242 | In a command line with at least one argument after the program name, inserting a token that is neither `-h` nor a value-taking flag, anywhere after the program name where it is not read as a value, leaves the outcome unchanged. |

## Left out

- Socket binding, `listener.incoming()`, `recv_from` and `write_all` are operating-system I/O. Accept results, datagrams and write outcomes are parameters (`accepted`, `datagram`, `WriteOutcome`).
- Threads, `Arc<Mutex<_>>`, `thread::sleep` and `join`: the two locked regions are modelled as atomic steps. `RelayTrace` covers every order in which they can interleave.
- The counter is updated under its own lock, separately from the registry's. The model folds both into one relay step, so a reader cannot see the counter updated before the fan-out.
- `recv_from` (src/main.rs:63) runs outside the registry lock. The model's `Datagram` event receives, counts and fans out in one atomic step. In the source an accept can fall between the receive and the fan-out (src/main.rs:63-68), and then the new handle is sent a datagram that was received before it joined. `RelayTrace.LateJoinerIsolation` speaks only of fan-out passes, so it does not cover this window.
- The throughput display thread: it does floating-point rate arithmetic and console output only.
- `print_help`, every `println!`/`eprintln!`, stdout flushing, and `std::process::exit(1)` on a bind failure are output and process control. The scan's verdict is the `Outcome` value instead.
- The library parsers for `u16` and `IpAddr` are taken as given (the `Parsers` parameter), not modelled.
- Oversized datagrams on other platforms: Rust says only that excess bytes may be discarded, and on Windows `recv_from` can report an error for such a datagram, which the `unwrap()` at src/main.rs:63 turns into a panic. The model follows the Unix behaviour, truncation.
- The panics of `unwrap()` on `recv_from`, `peer_addr`, `try_clone` and the locks are I/O failure paths. `peer_addr` is only printed.
- Relay.Deliver: a `write_all` that fails may already have sent part of the payload to that peer. The model records nothing for a failed write.
- Relay.Multiplexer.RelayDatagram: the counter is a `usize` in the source (`*my_data_udp += amt`, src/main.rs:65). After `usize::MAX` bytes it wraps in a release build, and in a debug build it panics, which poisons the counter's lock. The model's counter is unbounded, so neither is modelled.
- `handle_multiplexing` itself (listener setup) is not modelled beyond the initial state. A `Start` outcome marks the call.

# aria2 BitTorrent glue: the peer listener and the .torrent post-download classifier

This project models two small pieces of aria2's BitTorrent support in Dafny and proves properties of them.

**`PeerListenCommand`** (module `PeerListen`, file `peer_listen_command.dfy`) accepts inbound peers. It is written as imperative Dafny:

- `DownloadEngine` holds the halt flag, the finished flag of `RequestGroupMan`, the command queue `commands` (a `seq<Command>`) and the CUID counter.
- `IntSequence` holds the candidate ports. Its `Flush` drains them.
- `ListenerStatics` holds the class statics `__numInstance` and `__instance`. Dafny has no mutable statics, so this object is passed explicitly.
- `PeerListenCommand` holds its CUID, its engine and its listening socket.
  - `BindPort` drains the candidates and walks them in the shuffled order. It skips values outside (0, 65535]. It stops at the first port where bind, listen and non-blocking mode all succeed.
  - `Execute` is one scheduler tick. It runs at most three accept iterations, each guarded by a zero-timeout readability check. It pushes a handshake command for every accepted connection, then pushes itself, and returns "not done". When the engine is halting or all downloads are finished, it returns "done" and does nothing else.
  - `GetInstance` is the singleton accessor keyed on the live-instance counter.

The operating system is replaced by oracles:

- `bindable: int -> bool` says, per port, whether bind, `beginListen` and `setNonBlockingMode` all succeed.
- `polls: seq<Poll>` answers the readability checks in order. Each `Readable` answer carries the outcome of the accept that follows it. A check past the end of the sequence answers "not readable".
- The random shuffle is any permutation `shuffled` of the drained candidates.

The pure functions `FirstBindable`, `InRangeOnly`, `Attempts`, `AcceptRounds` and `Spawned` say what the methods compute. The lemmas beside them state the promised properties:

- out-of-range candidates are never tried;
- the search stops at the first winner;
- success does not depend on the shuffle;
- a tick makes at most three accepts;
- spawned CUIDs are fresh and in accept order.

**`BtPostDownloadHandler::canHandle`** (module `BtPostDownload`, file `bt_post_download_handler.dfy`) is a pure predicate. Its contract is the one fixed by `test/BtPostDownloadHandlerTest.cc`. A finished download is accepted when its first file entry's path ends with `.torrent` (case-sensitive suffix), or when its content type is exactly `application/x-bittorrent`. Each test assertion is reproduced by a lemma. The setters used between assertions are functions that return the updated context.

Two details of the code that the model keeps:

- **One socket for all candidates.** `bindPort` creates one `SocketCore` (`src/PeerListenCommand.cc:73`) and reuses it after `closeConnection` (:93). `BindPort` resets the socket once, and each failure returns it to `Unopened`.
- **Singleton keyed on the live count.** `getInstance` tests `__numInstance` (:131), not `__instance`. So a new instance is built whenever the live count is 0, for example after the destructor ran. An instance constructed directly, without `getInstance`, leaves the cached instance (possibly null) in place, and the accessor returns that. `GetInstance` models exactly this.

## Model

| member | source | states |
|---|---|---|
| `PeerListen.InRangeOnly` | src/PeerListenCommand.cc:79-83 | the candidates bindPort does not skip are exactly the drained values in (0, 65535] |
| `PeerListen.FirstBindable` | src/PeerListenCommand.cc:79-96 | the chosen port is a drained candidate in 1..65535 that binds, listens and goes non-blocking; there is none exactly when no in-range candidate does |
| `PeerListen.Attempts` | src/PeerListenCommand.cc:84-94 | every port handed to bind before the last one failed |
| `PeerListen.AttemptsEndAtWinner` | src/PeerListenCommand.cc:79-96 | the ports handed to bind are a prefix of the in-range candidates: all of them when none binds, ending at the chosen port otherwise, so nothing after the winner is tried |
| `PeerListen.AttemptsAreInRange` | src/PeerListenCommand.cc:81-86 | values outside (0, 65535] are never passed to bind and never counted as failures; without a winner every attempt failed |
| `PeerListen.WinnerAt` | src/PeerListenCommand.cc:84-90 | the first in-range bindable candidate wins, after exactly the in-range candidates before it were tried |
| `PeerListen.BindOutcomeIgnoresOrder` | src/PeerListenCommand.cc:75-96 | with a fixed per-port bindability, success is the same for every permutation of the candidates |
| `PeerListen.SoleBindableIsChosen` | src/PeerListenCommand.cc:75-90 | with exactly one bindable in-range candidate, every shuffle binds that port |
| `PeerListen.IntSequence.Flush` | src/PeerListenCommand.cc:75 | flush hands out all candidates and leaves the sequence empty |
| `PeerListen.PeerListenCommand.BindPort` | src/PeerListenCommand.cc:71-97 | drains the candidates; returns true exactly when some in-range candidate binds; then `port` is the first such in shuffled order and the socket listens on it; otherwise the socket is closed and `port` holds the last in-range candidate tried (its entry value if none); the ports tried are `Attempts`; of the command it changes only the socket |
| `PeerListen.Rounds` | src/PeerListenCommand.cc:103 | from iteration i, the loop runs while fewer than 3 iterations ran and the socket is readable, and stops at the first non-readable answer |
| `PeerListen.AcceptRounds` | src/PeerListenCommand.cc:103 | a tick makes at most 3 accept attempts, every one preceded by a readable answer, and stops at the first answer that is not readable |
| `PeerListen.RoundsStopAtFirstIdle` | src/PeerListenCommand.cc:103 | readability answers after the first false one within the cap have no effect on the number of accepts |
| `PeerListen.AcceptedPeers` | src/PeerListenCommand.cc:106-112 | at most one peer per poll, each marked incoming |
| `PeerListen.AcceptedPeersAppend` | src/PeerListenCommand.cc:103-124 | the peers of consecutive polls are the peers of each part, concatenated in order |
| `PeerListen.AcceptedPeersSingle` | src/PeerListenCommand.cc:106-123 | a readable poll whose accept succeeds yields `Peer(addr, port, true)` from that accept's peer info; a failed accept or a non-readable answer yields nothing |
| `PeerListen.Spawned` | src/PeerListenCommand.cc:106-120 | the handshake commands pushed are one per successful accept, in accept order, carrying that peer and CUIDs issued consecutively from the counter |
| `PeerListen.SpawnedCuidsFresh` | src/PeerListenCommand.cc:113-116 | the spawned CUIDs exceed the counter's previous value and are strictly increasing, hence distinct |
| `PeerListen.FailedAcceptSpawnsNothing` | src/PeerListenCommand.cc:121-123 | a failed accept is swallowed: it adds no command and uses no CUID |
| `PeerListen.DownloadEngine.NewCuid` | src/PeerListenCommand.cc:113 | each call issues a new CUID, the next value of the engine's counter, and changes nothing else |
| `PeerListen.PeerListenCommand.Execute` | src/PeerListenCommand.cc:99-127 | halting or finished: returns true with the queue and counter untouched and no accept; otherwise makes `AcceptRounds` accepts, appends `Spawned` handshakes and then itself to the queue, and returns false |
| `PeerListen.PeerListenCommand.constructor` | src/PeerListenCommand.cc:58-64 | construction raises the live-instance count by one |
| `PeerListen.PeerListenCommand.Destroy` | src/PeerListenCommand.cc:66-69 | destruction, at most once per constructed object and on the statics it counted in, lowers the live-instance count by one and leaves the cached instance alone |
| `PeerListen.ListenerStatics.constructor` | src/PeerListenCommand.cc:54-56 | the statics start with count 0 and a null instance |
| `PeerListen.PeerListenCommand.GetInstance` | src/PeerListenCommand.cc:129-135 | constructs a new instance, with a fresh CUID, exactly when the live count is 0, raising it to 1; otherwise returns the cached instance and changes nothing |
| `PeerListen.GetInstanceTwice` | src/PeerListenCommand.cc:129-135 | repeated calls return the same instance and construct at most once |
| `PeerListen.ListenerLifecycle` | src/PeerListenCommand.cc:66-135 | an instance obtained from the accessor when none is alive can be bound and then destroyed; the bind succeeds exactly when some in-range candidate binds, and the live count returns to 0 |
| `BtPostDownload.EndsWithIff` | test/BtPostDownloadHandlerTest.cc:46-47 | the extension test is a suffix test: a path ends with the extension iff it is some stem followed by it |
| `BtPostDownload.CanHandle` | test/BtPostDownloadHandlerTest.cc:36-63 | `canHandle` on a single-file context: accepted iff the file is named <stem>.torrent or its content type is exactly application/x-bittorrent |
| `BtPostDownload.NewDownloadContext` | test/BtPostDownloadHandlerTest.cc:38 | the context constructor yields exactly one file entry, with the given path and length and an empty content type |
| `BtPostDownload.SetFirstPath` | test/BtPostDownloadHandlerTest.cc:46 | `setPath` on the first entry replaces its path and leaves its content type, its length and the other entries unchanged |
| `BtPostDownload.SetFirstContentType` | test/BtPostDownloadHandlerTest.cc:53 | `setContentType` on the first entry replaces its content type and leaves its path, its length and the other entries unchanged |
| `BtPostDownload.CanHandleRecomputed` | test/BtPostDownloadHandlerTest.cc:44-62 | after setPath or setContentType the answer is the one for the new field values (no caching) |
| `BtPostDownload.CanHandleExtensionTest` | test/BtPostDownloadHandlerTest.cc:36-48 | test.torrent is accepted; test.torrent2 is rejected although it contains .torrent |
| `BtPostDownload.CanHandleContentTypeTest` | test/BtPostDownloadHandlerTest.cc:50-63 | path test with content type application/x-bittorrent is accepted; with application/octet-stream it is rejected |

## Left out

- Socket I/O (`bind`, `beginListen`, `setNonBlockingMode`, `isReadable`, `acceptConnection`, `getPeerInfo`, `closeConnection`): operating-system calls, replaced by the `bindable` predicate and the `Poll` answers. Which of the three bind steps failed is not modelled, because every failure takes the same path.
- The random shuffle (`std::random_shuffle` with `SimpleRandomizer`): a foreign randomness source, replaced by an arbitrary permutation that the caller passes in.
- The readability oracle and the accept oracle are merged into one sequence: each readable answer carries the accept outcome that follows it.
- `Execute` does not require the socket to be listening. The readability answers stand for whatever the socket reports.
- Logging (`logger->info/error/debug` and the message strings): diagnostics only.
- `ReceiverMSEHandshakeCommand`, `Peer` and the engine internals. A handshake command is recorded only by its CUID and its peer.
- `DownloadEngine::newCUID`: its implementation is not modelled; it is represented as a counter that returns its next value.
- `_lowestSpeedLimit`: initialised but never used.
- Heap ownership, `delete`, and the dangling `__instance` value after destruction: memory management, not behaviour. The destructor is an explicit `Destroy` method.
- `IntSequence` is modelled as an already-expanded sequence of ports. Its range representation is not part of this model.
- Integer widths: the 32-bit wrap-around of `unsigned int __numInstance` and of the `int32_t` CUID counter is not modelled, because neither wraps in a realistic run. Writing a value in 1..65535 into the `uint16_t` port never truncates.
- `getNextRequestGroups` and its expected info hash (test/BtPostDownloadHandlerTest.cc:65-79): these need bencode parsing of the .torrent file and a SHA-1 info hash. Neither is part of this model.
- Multi-target or malformed-metadata behaviour of the handler: not present in the code modelled here.
- `CanHandle` on a context with more than one file entry: the tests build single-file contexts only (test/BtPostDownloadHandlerTest.cc:38, :52), so `CanHandle` requires exactly one entry.
- The handler's behaviour on a download context with no file entries: the test contexts always have one.
- `NewDownloadContext` takes its arguments as piece length, total length, path. `DownloadContext.h` is not part of this model, so this order is not confirmed. Neither value affects `CanHandle`.

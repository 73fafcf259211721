/**
  The inbound-peer acceptor of aria2's BitTorrent support (PeerListenCommand).

  The operating system's sockets are replaced by oracles:
  - a per-port predicate `bindable` that says whether bind, beginListen and
    setNonBlockingMode all succeed for that port;
  - a sequence of `Poll` answers, one per zero-timeout readability check,
    each carrying what the accept that follows it yields.
  The random shuffle of the candidate ports is an arbitrary permutation,
  handed in by the caller.
 */
module PeerListen {

  /** Highest TCP port number; candidates must lie in (0, MaxPort]. */
  const MaxPort := 65535

  /** Number of accept iterations one scheduler tick may run. */
  const AcceptsPerTick := 3

  datatype Option<T> = None | Some(value: T)

  /** A remote peer: address, port and whether it connected to us. */
  datatype Peer = Peer(ipaddr: string, port: int, incoming: bool)

  /** What acceptConnection, getPeerInfo and setNonBlockingMode together yield. */
  datatype AcceptOutcome = Accepted(addr: string, port: int) | AcceptFailed

  /** The answer of one zero-timeout readability check on the listening socket. */
  datatype Poll = NotReadable | Readable(outcome: AcceptOutcome)

  /** The listening socket owned by the command. */
  datatype ListenSocket = Unopened | Listening(port: int)

  /** An entry of the engine's command queue. */
  datatype Command =
    | ReceiverMSEHandshake(cuid: int, peer: Peer)
    | Listener(cmd: PeerListenCommand)

  // ---------------------------------------------------------------------
  // Port selection (bindPort)
  // ---------------------------------------------------------------------

  predicate InRange(p: int) {
    0 < p <= MaxPort
  }

  /** The candidates that bindPort does not skip, in order. */
  function InRangeOnly(ports: seq<int>): (r: seq<int>)
    ensures |r| <= |ports|
    ensures forall q :: q in r <==> q in ports && InRange(q)
  {
    if ports == [] then []
    else
      var init := ports[..|ports| - 1];
      var last := ports[|ports| - 1];
      assert ports == init + [last];
      InRangeOnly(init) + (if InRange(last) then [last] else [])
  }

  /** The port bindPort settles on, if any: the first in-range candidate that binds. */
  function FirstBindable(ports: seq<int>, bindable: int -> bool): (r: Option<int>)
    ensures r.Some? ==> r.value in ports && InRange(r.value) && bindable(r.value)
    ensures r.None? <==> forall q :: q in ports && InRange(q) ==> !bindable(q)
  {
    if ports == [] then None
    else if InRange(ports[0]) && bindable(ports[0]) then Some(ports[0])
    else
      assert forall q :: q in ports ==> q == ports[0] || q in ports[1..];
      FirstBindable(ports[1..], bindable)
  }

  /**
    The ports handed to bind, in order: the in-range candidates up to and
    including the first one that binds (all of them when none binds).
   */
  function Attempts(ports: seq<int>, bindable: int -> bool): (r: seq<int>)
    ensures forall j :: 0 <= j < |r| - 1 ==> !bindable(r[j])
  {
    if ports == [] then []
    else if !InRange(ports[0]) then Attempts(ports[1..], bindable)
    else if bindable(ports[0]) then [ports[0]]
    else [ports[0]] + Attempts(ports[1..], bindable)
  }

  /**
    The attempts are a prefix of the in-range candidates: the whole of them
    when no candidate binds, and ending at the winner otherwise.
   */
  lemma AttemptsEndAtWinner(ports: seq<int>, bindable: int -> bool)
    ensures Attempts(ports, bindable) <= InRangeOnly(ports)
    ensures FirstBindable(ports, bindable).None? ==> Attempts(ports, bindable) == InRangeOnly(ports)
    ensures FirstBindable(ports, bindable).Some? ==>
              |Attempts(ports, bindable)| > 0 &&
              Attempts(ports, bindable)[|Attempts(ports, bindable)| - 1] == FirstBindable(ports, bindable).value
  {
    AttemptsArePrefix(ports, bindable);
    if FirstBindable(ports, bindable).None? {
      AttemptsWithoutWinner(ports, bindable);
    } else {
      AttemptsEndWithWinner(ports, bindable);
    }
  }

  lemma {:induction false} AttemptsArePrefix(ports: seq<int>, bindable: int -> bool)
    ensures Attempts(ports, bindable) <= InRangeOnly(ports)
  {
    if ports != [] {
      var p, rest := ports[0], ports[1..];
      AttemptsArePrefix(rest, bindable);
      InRangeOnlyCons(p, rest);
      assert ports == [p] + rest;
    }
  }

  lemma {:induction false} AttemptsWithoutWinner(ports: seq<int>, bindable: int -> bool)
    requires FirstBindable(ports, bindable).None?
    ensures Attempts(ports, bindable) == InRangeOnly(ports)
  {
    if ports != [] {
      var p, rest := ports[0], ports[1..];
      assert FirstBindable(rest, bindable).None?;
      AttemptsWithoutWinner(rest, bindable);
      InRangeOnlyCons(p, rest);
      assert ports == [p] + rest;
    }
  }

  lemma {:induction false} AttemptsEndWithWinner(ports: seq<int>, bindable: int -> bool)
    requires FirstBindable(ports, bindable).Some?
    ensures |Attempts(ports, bindable)| > 0
    ensures Attempts(ports, bindable)[|Attempts(ports, bindable)| - 1] == FirstBindable(ports, bindable).value
  {
    var p, rest := ports[0], ports[1..];
    if !(InRange(p) && bindable(p)) {
      AttemptsEndWithWinner(rest, bindable);
    }
  }

  /** The last element of `s`, or `d` when `s` is empty. */
  function LastOr(s: seq<int>, d: int): int {
    if s == [] then d else s[|s| - 1]
  }

  lemma {:induction false} InRangeOnlyCons(p: int, ports: seq<int>)
    ensures InRangeOnly([p] + ports) == (if InRange(p) then [p] else []) + InRangeOnly(ports)
    decreases |ports|
  {
    if ports == [] {
      assert [p] + ports == [p];
      assert [p][..0] == [];
    } else {
      var init := ports[..|ports| - 1];
      var last := ports[|ports| - 1];
      assert ([p] + ports)[..|ports|] == [p] + init;
      assert ([p] + ports)[|ports|] == last;
      InRangeOnlyCons(p, init);
    }
  }

  /**
    Whether bindPort succeeds does not depend on the shuffle: it succeeds
    for a permutation exactly when it succeeds for any other one.
   */
  lemma BindOutcomeIgnoresOrder(a: seq<int>, b: seq<int>, bindable: int -> bool)
    requires multiset(a) == multiset(b)
    ensures FirstBindable(a, bindable).Some? <==> FirstBindable(b, bindable).Some?
  {
    forall q
      ensures q in a <==> q in b
    {
      assert q in a <==> q in multiset(a);
      assert q in b <==> q in multiset(b);
    }
  }

  /**
    With exactly one in-range bindable candidate, every shuffle of the
    candidates makes bindPort settle on that candidate.
   */
  lemma SoleBindableIsChosen(drained: seq<int>, shuffled: seq<int>, p: int, bindable: int -> bool)
    requires multiset(shuffled) == multiset(drained)
    requires p in drained && InRange(p) && bindable(p)
    requires forall q :: q in drained && InRange(q) && bindable(q) ==> q == p
    ensures FirstBindable(shuffled, bindable) == Some(p)
  {
    forall q
      ensures q in shuffled <==> q in drained
    {
      assert q in shuffled <==> q in multiset(shuffled);
      assert q in drained <==> q in multiset(drained);
    }
  }

  /**
    Candidates outside (0, 65535] are never handed to bind, so they are never
    counted among the failed attempts; when no candidate binds, every attempt
    was a failure.
   */
  lemma {:induction false} AttemptsAreInRange(ports: seq<int>, bindable: int -> bool)
    ensures forall q :: q in Attempts(ports, bindable) ==> q in ports && InRange(q)
    ensures FirstBindable(ports, bindable).None? ==>
              forall q :: q in Attempts(ports, bindable) ==> !bindable(q)
  {
    var tried := Attempts(ports, bindable);
    var all := InRangeOnly(ports);
    AttemptsEndAtWinner(ports, bindable);
    forall q | q in tried ensures q in ports && InRange(q) {
      var j :| 0 <= j < |tried| && tried[j] == q;
      assert all[j] in all;
    }
  }

  /**
    The candidate at position k wins when it is the first in-range bindable
    one: bindPort then settles on it, after trying exactly the in-range
    candidates up to position k.
   */
  lemma {:induction false} WinnerAt(s: seq<int>, k: nat, bindable: int -> bool)
    requires k < |s| && InRange(s[k]) && bindable(s[k])
    requires forall j :: 0 <= j < k ==> !(InRange(s[j]) && bindable(s[j]))
    ensures FirstBindable(s, bindable) == Some(s[k])
    ensures Attempts(s, bindable) == InRangeOnly(s[..k + 1])
  {
    assert s == [s[0]] + s[1..];
    if k == 0 {
      assert s[..1] == [s[0]] + [];
      InRangeOnlyCons(s[0], []);
    } else {
      WinnerAt(s[1..], k - 1, bindable);
      assert s[..k + 1] == [s[0]] + s[1..][..k];
      InRangeOnlyCons(s[0], s[1..][..k]);
    }
  }

  // ---------------------------------------------------------------------
  // The accept loop (execute)
  // ---------------------------------------------------------------------

  /**
    Number of accept iterations run from iteration `i` on: the loop goes on
    while fewer than AcceptsPerTick iterations ran and the socket is readable.
   */
  function Rounds(polls: seq<Poll>, i: nat): (n: nat)
    requires i <= AcceptsPerTick && i <= |polls|
    ensures i <= n <= AcceptsPerTick && n <= |polls|
    ensures forall j :: i <= j < n ==> polls[j].Readable?
    ensures n < AcceptsPerTick && n < |polls| ==> polls[n].NotReadable?
    decreases AcceptsPerTick - i
  {
    if i < AcceptsPerTick && i < |polls| && polls[i].Readable? then Rounds(polls, i + 1) else i
  }

  /** Number of accept attempts one tick makes. */
  function AcceptRounds(polls: seq<Poll>): (n: nat)
    ensures n <= AcceptsPerTick && n <= |polls|
    ensures forall j :: 0 <= j < n ==> polls[j].Readable?
    ensures n < AcceptsPerTick && n < |polls| ==> polls[n].NotReadable?
  {
    Rounds(polls, 0)
  }

  /**
    The readability checks after the first one answering false have no effect:
    the number of accept attempts is fixed by the answers up to that one.
   */
  lemma RoundsStopAtFirstIdle(polls: seq<Poll>, later: seq<Poll>, k: nat)
    requires k < AcceptsPerTick && k < |polls| && polls[k].NotReadable?
    requires forall j :: 0 <= j < k ==> polls[j].Readable?
    ensures AcceptRounds(polls) == k
    ensures AcceptRounds(polls[..k + 1] + later) == k
  {
  }

  /** The peers of the successful accepts among `polls`, in accept order. */
  function AcceptedPeers(polls: seq<Poll>): (r: seq<Peer>)
    ensures |r| <= |polls|
    ensures forall j :: 0 <= j < |r| ==> r[j].incoming
  {
    if polls == [] then []
    else
      var init := AcceptedPeers(polls[..|polls| - 1]);
      match polls[|polls| - 1]
      case Readable(Accepted(addr, port)) => init + [Peer(addr, port, true)]
      case _ => init
  }

  /** AcceptedPeers distributes over concatenation: each poll contributes on its own. */
  lemma {:induction false} AcceptedPeersAppend(a: seq<Poll>, b: seq<Poll>)
    ensures AcceptedPeers(a + b) == AcceptedPeers(a) + AcceptedPeers(b)
    decreases |b|
  {
    if b == [] {
      assert a + b == a;
    } else {
      var init := b[..|b| - 1];
      assert (a + b)[..|a + b| - 1] == a + init;
      assert (a + b)[|a + b| - 1] == b[|b| - 1];
      assert b[..|b| - 1] == init;
      AcceptedPeersAppend(a, init);
    }
  }

  /**
    A single poll contributes the peer of its accept, marked incoming, when
    the socket was readable and the accept succeeded, and nothing otherwise.
   */
  lemma AcceptedPeersSingle(p: Poll)
    ensures AcceptedPeers([p]) ==
              if p.Readable? && p.outcome.Accepted?
              then [Peer(p.outcome.addr, p.outcome.port, true)]
              else []
  {
  }

  /**
    The handshake commands a tick spawns for `polls`, issued from the CUID
    counter value `cuid0`: one per successful accept, carrying that accept's
    peer and the next CUIDs cuid0 + 1, cuid0 + 2, ... in accept order.
   */
  function Spawned(polls: seq<Poll>, cuid0: int): (r: seq<Command>)
    ensures |r| == |AcceptedPeers(polls)|
    ensures forall j :: 0 <= j < |r| ==>
              r[j] == ReceiverMSEHandshake(cuid0 + 1 + j, AcceptedPeers(polls)[j])
  {
    if polls == [] then []
    else
      var init := Spawned(polls[..|polls| - 1], cuid0);
      match polls[|polls| - 1]
      case Readable(Accepted(addr, port)) =>
        init + [ReceiverMSEHandshake(cuid0 + |init| + 1, Peer(addr, port, true))]
      case _ => init
  }

  /**
    The CUIDs of the spawned handshake commands are all fresh: greater than
    the counter value they were issued from, and pairwise distinct.
   */
  lemma SpawnedCuidsFresh(polls: seq<Poll>, cuid0: int)
    ensures forall j :: 0 <= j < |Spawned(polls, cuid0)| ==> Spawned(polls, cuid0)[j].cuid > cuid0
    ensures forall j, k :: 0 <= j < k < |Spawned(polls, cuid0)| ==>
              Spawned(polls, cuid0)[j].cuid < Spawned(polls, cuid0)[k].cuid
  {
  }

  /** A failed accept spawns nothing: appending it leaves the spawned commands as they were. */
  lemma FailedAcceptSpawnsNothing(polls: seq<Poll>, cuid0: int)
    ensures Spawned(polls + [Readable(AcceptFailed)], cuid0) == Spawned(polls, cuid0)
    ensures AcceptedPeers(polls + [Readable(AcceptFailed)]) == AcceptedPeers(polls)
  {
  }

  // ---------------------------------------------------------------------
  // The engine and the candidate-port sequence
  // ---------------------------------------------------------------------

  /** The parts of DownloadEngine and RequestGroupMan the acceptor uses. */
  class DownloadEngine {
    var haltRequested: bool
    /** What RequestGroupMan::downloadFinished() answers. */
    var downloadFinished: bool
    var commands: seq<Command>
    var cuidCounter: int

    constructor ()
      ensures !haltRequested && !downloadFinished
      ensures commands == [] && cuidCounter == 0
    {
      haltRequested, downloadFinished := false, false;
      commands, cuidCounter := [], 0;
    }

    /** Issues a fresh CUID: the next value of the counter. */
    method NewCuid() returns (cuid: int)
      modifies this
      ensures cuid == old(cuidCounter) + 1 && cuidCounter == cuid
      ensures commands == old(commands)
      ensures haltRequested == old(haltRequested) && downloadFinished == old(downloadFinished)
    {
      cuidCounter := cuidCounter + 1;
      cuid := cuidCounter;
    }
  }

  /** The configured candidate ports, already expanded from their ranges. */
  class IntSequence {
    var values: seq<int>

    constructor (values: seq<int>)
      ensures this.values == values
    {
      this.values := values;
    }

    /** Hands out every value and leaves the sequence empty. */
    method Flush() returns (drained: seq<int>)
      modifies this
      ensures drained == old(values) && values == []
    {
      drained := values;
      values := [];
    }
  }

  /** The class-wide statics __numInstance and __instance of PeerListenCommand. */
  class ListenerStatics {
    var numInstance: nat
    var instance: PeerListenCommand?

    constructor ()
      ensures numInstance == 0 && instance == null
    {
      numInstance, instance := 0, null;
    }
  }

  // ---------------------------------------------------------------------
  // The command
  // ---------------------------------------------------------------------

  class PeerListenCommand {
    const cuid: int
    const e: DownloadEngine
    var socket: ListenSocket
    /** The statics whose count this object raised, and whether its destructor ran. */
    ghost const owner: ListenerStatics
    ghost var destroyed: bool

    /** Every construction raises the live-instance count by one. */
    constructor (cuid: int, e: DownloadEngine, statics: ListenerStatics)
      modifies statics
      ensures this.cuid == cuid && this.e == e && socket == Unopened
      ensures owner == statics && !destroyed
      ensures statics.numInstance == old(statics.numInstance) + 1
      ensures statics.instance == old(statics.instance)
    {
      this.cuid := cuid;
      this.e := e;
      socket := Unopened;
      owner := statics;
      destroyed := false;
      new;
      statics.numInstance := statics.numInstance + 1;
    }

    /**
      The destructor: lowers the live-instance count by one. The cached
      instance is left as it is.
     */
    method Destroy(statics: ListenerStatics)
      requires statics == owner && !destroyed
      requires statics.numInstance > 0
      modifies this`destroyed, statics
      ensures destroyed
      ensures statics.numInstance == old(statics.numInstance) - 1
      ensures statics.instance == old(statics.instance)
    {
      destroyed := true;
      statics.numInstance := statics.numInstance - 1;
    }

    /**
      Binds the listening socket to one of the candidate ports. The candidates
      are drained from `ports`; `shuffled` is the order the random shuffle put
      them in. `port0` is the value of the in-out parameter `port` on entry.
      `tried` lists the ports handed to bind, in order.
     */
    method BindPort(ports: IntSequence, port0: int, shuffled: seq<int>, bindable: int -> bool)
      returns (ok: bool, port: int, ghost tried: seq<int>)
      requires multiset(shuffled) == multiset(ports.values)
      modifies this`socket, ports
      ensures ports.values == []
      ensures ok <==> FirstBindable(shuffled, bindable).Some?
      ensures ok ==> port == FirstBindable(shuffled, bindable).value
      ensures ok ==> InRange(port) && bindable(port) && socket == Listening(port)
      ensures !ok ==> socket == Unopened && port == LastOr(InRangeOnly(shuffled), port0)
      ensures tried == Attempts(shuffled, bindable)
    {
      socket := Unopened;
      var drained := ports.Flush();
      // std::random_shuffle: some permutation of the drained candidates
      var randPorts := shuffled;
      assert multiset(randPorts) == multiset(drained);
      port, tried := port0, [];
      var k := 0;
      while k < |randPorts|
        invariant 0 <= k <= |randPorts|
        invariant ports.values == []
        invariant socket == Unopened
        invariant forall j :: 0 <= j < k ==> !(InRange(randPorts[j]) && bindable(randPorts[j]))
        invariant tried == InRangeOnly(randPorts[..k])
        invariant port == LastOr(tried, port0)
      {
        var p := randPorts[k];
        assert randPorts[..k + 1] == randPorts[..k] + [p];
        assert randPorts[..k + 1][..k] == randPorts[..k];
        if InRange(p) {
          port := p;
          tried := tried + [p];
          if bindable(p) {
            WinnerAt(randPorts, k, bindable);
            socket := Listening(p);
            return true, port, tried;
          }
          socket := Unopened;
        }
        k := k + 1;
      }
      assert randPorts[..k] == randPorts;
      AttemptsEndAtWinner(randPorts, bindable);
      ok := false;
    }

    /**
      One scheduler tick. `polls` answers the readability checks in order
      (checks past its end answer false); `attempts` is the number of
      accepts made.
     */
    method Execute(polls: seq<Poll>) returns (done: bool, ghost attempts: nat)
      modifies e
      ensures done <==> old(e.haltRequested) || old(e.downloadFinished)
      ensures done ==> attempts == 0 && e.commands == old(e.commands)
                         && e.cuidCounter == old(e.cuidCounter)
      ensures !done ==> attempts == AcceptRounds(polls)
      ensures !done ==> e.commands == old(e.commands)
                                      + Spawned(polls[..attempts], old(e.cuidCounter))
                                      + [Listener(this)]
      ensures !done ==> e.cuidCounter == old(e.cuidCounter) + |AcceptedPeers(polls[..attempts])|
      ensures e.haltRequested == old(e.haltRequested) && e.downloadFinished == old(e.downloadFinished)
    {
      if e.haltRequested || e.downloadFinished {
        return true, 0;
      }
      ghost var base, cuid0 := e.commands, e.cuidCounter;
      var i := 0;
      while i < AcceptsPerTick && i < |polls| && polls[i].Readable?
        invariant 0 <= i <= AcceptsPerTick && i <= |polls|
        invariant Rounds(polls, i) == AcceptRounds(polls)
        invariant e.commands == base + Spawned(polls[..i], cuid0)
        invariant e.cuidCounter == cuid0 + |AcceptedPeers(polls[..i])|
        invariant e.haltRequested == old(e.haltRequested) && e.downloadFinished == old(e.downloadFinished)
      {
        assert polls[..i + 1][..i] == polls[..i];
        match polls[i].outcome {
          case Accepted(addr, peerPort) =>
            var peer := Peer(addr, peerPort, true);
            var newCuid := e.NewCuid();
            e.commands := e.commands + [ReceiverMSEHandshake(newCuid, peer)];
          case AcceptFailed =>
        }
        i := i + 1;
      }
      e.commands := e.commands + [Listener(this)];
      return false, i;
    }

    /**
      The singleton accessor: constructs an instance, with a fresh CUID, only
      when no instance is alive; otherwise returns the cached instance.
     */
    static method GetInstance(statics: ListenerStatics, e: DownloadEngine)
      returns (r: PeerListenCommand?)
      modifies statics, e
      ensures r == statics.instance
      ensures old(statics.numInstance) == 0 ==>
                r != null && fresh(r) && r.e == e && r.socket == Unopened
                && r.owner == statics && !r.destroyed
                && r.cuid == old(e.cuidCounter) + 1 && e.cuidCounter == r.cuid
                && statics.numInstance == 1
      ensures old(statics.numInstance) != 0 ==>
                r == old(statics.instance) && statics.numInstance == old(statics.numInstance)
                && e.cuidCounter == old(e.cuidCounter)
      ensures e.commands == old(e.commands)
      ensures e.haltRequested == old(e.haltRequested) && e.downloadFinished == old(e.downloadFinished)
    {
      if statics.numInstance == 0 {
        var newCuid := e.NewCuid();
        statics.instance := new PeerListenCommand(newCuid, e, statics);
      }
      r := statics.instance;
    }
  }

  /** Two calls of the accessor in a row yield the same instance, and at most one construction happens. */
  method GetInstanceTwice(statics: ListenerStatics, e: DownloadEngine)
    returns (first: PeerListenCommand?, second: PeerListenCommand?)
    modifies statics, e
    ensures first == second
    ensures statics.numInstance == if old(statics.numInstance) == 0 then 1 else old(statics.numInstance)
  {
    first := PeerListenCommand.GetInstance(statics, e);
    second := PeerListenCommand.GetInstance(statics, e);
  }

  /**
    The listener's whole life: the accessor builds it when none is alive,
    bindPort opens it, and the destructor brings the live count back to 0.
    Binding touches only the socket, so the destructor can still run.
   */
  method ListenerLifecycle(statics: ListenerStatics, e: DownloadEngine, ports: IntSequence,
                           shuffled: seq<int>, bindable: int -> bool)
    returns (ok: bool, port: int)
    requires statics.numInstance == 0
    requires multiset(shuffled) == multiset(ports.values)
    modifies statics, e, ports
    ensures ok <==> FirstBindable(shuffled, bindable).Some?
    ensures statics.numInstance == 0
  {
    var cmd := PeerListenCommand.GetInstance(statics, e);
    ghost var tried;
    ok, port, tried := cmd.BindPort(ports, 0, shuffled, bindable);
    cmd.Destroy(statics);
  }
}

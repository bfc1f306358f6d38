/** The critical sections and the handler loop of the relay as programs over the shared list (TCPS/Server/TCPS.cpp,
    handle_c and main), proved against the steps of module Relay. */
module RelayServer {
  import opened Basics
  import opened Relay

  /** A call of send: whole, or failed. */
  datatype SendCall = SendCall(fd: int, data: seq<byte>, ok: bool)

  class Server {
    var clients: seq<int>
    var sends: seq<SendCall>
    ghost var world: State

    ghost predicate Valid()
      reads this
    {
      Reachable(world) && clients == world.clients
    }

    constructor ()
      ensures Valid() && world == INIT && sends == []
    {
      clients, sends, world := [], [], INIT;
      new;
      RunsNowhere(INIT);
    }

    /** The body of the accept loop: a descriptor the kernel did not have open is listed, and its thread started. */
    method OnAccept(fd: int)
      requires Valid() && world.setup.None? && world.mutex.Free? && !FdInUse(world, fd)
      modifies this
      ensures Valid() && world.setup.None? && world.mutex.Free?
      ensures clients == old(clients) + [fd] && world.log == old(world.log) && sends == old(sends)
      ensures world.conns == old(world.conns) + [Conn(fd, Reading, |world.log|, 0, [], [])]
    {
      ghost var c := |world.conns|;
      ghost var accepted := world.(setup := Some(c), conns := world.conns + [Conn(fd, Accepted, 0, 0, [], [])]);
      ReachableStep(world, Accept(fd), accepted);
      clients := clients + [fd];
      ghost var listed := accepted.(clients := clients,
        conns := accepted.conns[c := accepted.conns[c].(phase := Listed, joined := |world.log|)]);
      ReachableStep(accepted, Register, listed);
      ghost var started := WithPhase(listed, c, Reading).(setup := None);
      ReachableStep(listed, StartThread, started);
      world := started;
    }

    /** One iteration over the list, the mutex held: a send unless the descriptor is the sender's own. */
    method SendToNext(c: nat, clientSocket: int, n: nat, buffer: seq<byte>, sendOk: int -> bool,
                      ghost before: seq<Conn>)
      requires Valid() && world.mutex == Held(c, n) && n < |clients|
      requires InPhase(world, c, Sending) && world.conns[c].fd == clientSocket && |before| == |world.conns|
      requires world.log != [] && world.log[|world.log| - 1].data == buffer
      requires OfferedToAll(before, world.conns, c, clients[..n], world.log[|world.log| - 1], sendOk)
      modifies this`world, this`sends
      ensures Valid() && world == old(world).(mutex := Held(c, n + 1), conns := world.conns)
      ensures |world.conns| == |before| && world.conns[c] == old(world.conns[c])
      ensures OfferedToAll(before, world.conns, c, clients[..n + 1], world.log[|world.log| - 1], sendOk)
      ensures sends == old(sends)
        + if clients[n] == clientSocket then [] else [SendCall(clients[n], buffer, sendOk(clients[n]))]
    {
      var othersAddr, ok := clients[n], true;
      ghost var conns := world.conns;
      if othersAddr != clientSocket {
        ok := sendOk(othersAddr);
        sends := sends + [SendCall(othersAddr, buffer, ok)];
        conns := Deliver(conns, othersAddr, Attempt(world.log[|world.log| - 1], ok));
      }
      ghost var after := world.(mutex := Held(c, n + 1), conns := conns);
      SendStep(world, c, n, ok, after, before, sendOk);
      world := after;
    }

    /** The broadcast of a received buffer; `sendOk` says which descriptors accept the data. Every other listed
        connection gets the buffer once, the sender and the unlisted ones get nothing. */
    method BroadcastBuffer(c: nat, clientSocket: int, buffer: seq<byte>, sendOk: int -> bool)
      requires Valid() && world.mutex.Free?
      requires InPhase(world, c, Holding(buffer)) && world.conns[c].fd == clientSocket
      modifies this
      ensures Valid() && world.mutex.Free? && clients == old(clients) && world.setup == old(world.setup)
      ensures sends == old(sends) + SendsTo(clients, clientSocket, buffer, sendOk)
      ensures old(sends) <= sends && OneCallEach(sends[|old(sends)|..], clients, clientSocket, buffer, sendOk)
      ensures world.log == old(world.log) + [Entry(|old(world.log)|, c, buffer)]
      ensures |world.conns| == |old(world.conns)|
      ensures world.conns[c] == old(world.conns[c]).(phase := Reading)
      ensures OfferedToAll(old(world.conns), world.conns, c, clients, Entry(|old(world.log)|, c, buffer), sendOk)
    {
      ghost var start := world;
      ghost var entry := Entry(|world.log|, c, buffer);
      ghost var locked := WithPhase(world, c, Sending).(mutex := Held(c, 0), log := world.log + [entry]);
      ReachableStep(world, LockForBroadcast(c), locked);
      OfferedToNone(start.conns, locked.conns, c, clients, entry, sendOk);
      hide Reachable, OfferedToAll, FdInUse;
      world := locked;
      for n := 0 to |clients|
        modifies this`world, this`sends
        invariant Reachable(world) && clients == start.clients
        invariant sends == old(sends) + SendsTo(clients[..n], clientSocket, buffer, sendOk)
        invariant world == locked.(mutex := Held(c, n), conns := world.conns)
        invariant |world.conns| == |locked.conns| && world.conns[c] == locked.conns[c]
        invariant OfferedToAll(start.conns, world.conns, c, clients[..n], entry, sendOk)
      {
        assert clients[..n + 1][..n] == clients[..n];
        SendToNext(c, clientSocket, n, buffer, sendOk, start.conns);
      }
      assert clients[..|clients|] == clients;
      ghost var unlocked := WithPhase(world, c, Reading).(mutex := Free);
      ReachableStep(world, Unlock(c), unlocked);
      OfferedStays(start.conns, world.conns, unlocked.conns, c, clients, entry, sendOk);
      CallsAreOneEach(start, c, buffer, sendOk);
      world := unlocked;
    }

    /** The erase of a descriptor: one pass that keeps the others in order. */
    method RemoveClient(c: nat, clientSocket: int)
      requires Valid() && world.mutex.Free? && InPhase(world, c, Ending) && world.conns[c].fd == clientSocket
      modifies this
      ensures Valid() && Removes(old(world), c, world) && clientSocket !in clients && sends == old(sends)
      ensures ClosesGap(old(clients), clients, clientSocket)
    {
      var kept := [];
      for n := 0 to |clients|
        invariant kept == RemoveAll(clients[..n], clientSocket)
      {
        assert clients[..n + 1][..n] == clients[..n];
        if clients[n] != clientSocket {
          kept := kept + [clients[n]];
        }
      }
      assert clients[..|clients|] == clients;
      RemoveAllContents(clients, clientSocket);
      GapIsClosed(world, c);
      clients := kept;
      ghost var removed := world.(clients := kept,
        conns := world.conns[c := world.conns[c].(phase := Removed, left := |world.log|)]);
      ReachableStep(world, Remove(c), removed);
      world := removed;
    }

    /** The end of a handler: recv returned 0 or -1, the descriptor is erased under the lock, then closed. */
    method Leave(c: nat, clientSocket: int)
      requires Valid() && world.mutex.Free? && InPhase(world, c, Reading) && world.conns[c].fd == clientSocket
      modifies this
      ensures Valid() && world.mutex.Free? && clientSocket !in clients
      ensures world.log == old(world.log) && sends == old(sends)
      ensures clients == RemoveAll(old(clients), clientSocket) && ClosesGap(old(clients), clients, clientSocket)
      ensures c < |world.conns|
      ensures world.conns == old(world.conns)[c := old(world.conns[c]).(phase := Closed, left := |world.log|)]
    {
      ghost var ending := WithPhase(world, c, Ending);
      ReachableStep(world, Finish(c), ending);
      world := ending;
      RemoveClient(c, clientSocket);
      ghost var closed := WithPhase(world, c, Closed);
      ReachableStep(world, Close(c), closed);
      world := closed;
    }

    /** The accept loop over several connections, between two critical sections of a handler. */
    method AcceptAll(fds: seq<int>)
      requires Valid() && world.setup.None? && world.mutex.Free?
      requires Distinct(fds) && forall fd :: fd in fds ==> !FdInUse(world, fd)
      modifies this
      ensures Valid() && world.setup.None? && world.mutex.Free?
      ensures clients == old(clients) + fds && world.log == old(world.log) && sends == old(sends)
      ensures old(world.conns) <= world.conns
      ensures forall fd :: fd !in fds && !FdInUse(old(world), fd) ==> !FdInUse(world, fd)
    {
      ghost var start := world;
      for k := 0 to |fds|
        invariant Valid() && world.setup.None? && world.mutex.Free?
        invariant clients == start.clients + fds[..k] && world.log == start.log && sends == old(sends)
        invariant start.conns <= world.conns
        invariant forall fd :: fd !in fds[..k] && !FdInUse(start, fd) ==> !FdInUse(world, fd)
      {
        assert fds[..k + 1] == fds[..k] + [fds[k]];
        OnAccept(fds[k]);
      }
      assert fds[..|fds|] == fds;
    }

    /** One round of a handler: the accept loop may run, recv returns data, the data is broadcast. Every listed
        connection but the handler's own is offered it once. */
    method Serve(c: nat, clientSocket: int, round: Round)
      requires Valid() && world.setup.None? && world.mutex.Free?
      requires InPhase(world, c, Reading) && world.conns[c].fd == clientSocket
      requires 0 < |round.buffer| <= BUFFER_SIZE
      requires Distinct(round.accepted) && forall fd :: fd in round.accepted ==> !FdInUse(world, fd)
      modifies this
      ensures Valid() && world.setup.None? && world.mutex.Free? && c < |world.conns|
      ensures clients == old(clients) + round.accepted
      ensures sends == old(sends) + SendsTo(clients, clientSocket, round.buffer, round.sendOk)
      ensures old(sends) <= sends
      ensures OneCallEach(sends[|old(sends)|..], clients, clientSocket, round.buffer, round.sendOk)
      ensures world.log == old(world.log) + [Entry(|old(world.log)|, c, round.buffer)]
      ensures world.conns[c] == old(world.conns[c]).(stream := old(world.conns[c].stream) + round.buffer)
      ensures ServedAll(old(world.conns), world.conns, c, Entry(|old(world.log)|, c, round.buffer), round.sendOk)
      ensures forall fd :: fd !in round.accepted && !FdInUse(old(world), fd) ==> !FdInUse(world, fd)
    {
      ghost var start := world;
      AcceptAll(round.accepted);
      ghost var before := world;
      world := world.(conns := world.conns[c := world.conns[c].(
        phase := Holding(round.buffer), stream := world.conns[c].stream + round.buffer)]);
      ReachableStep(before, Receive(c, round.buffer), world);
      ghost var holding := world;
      BroadcastBuffer(c, clientSocket, round.buffer, round.sendOk);
      SameDescriptors(before, world);
      OfferedIsServed(start.conns, holding, world, c, Entry(|start.log|, c, round.buffer), round.sendOk);
    }

    /** The thread of one connection over the buffers its recv calls return, until one returns 0 or -1; before each of
        them the accept loop may list new connections. The log gets exactly these buffers, in order, and each is sent
        to whoever else is listed by then; afterwards the descriptor is erased and closed and all others are listed. */
    method HandleClient(c: nat, clientSocket: int, rounds: seq<Round>)
      requires Valid() && world.setup.None? && world.mutex.Free?
      requires InPhase(world, c, Reading) && world.conns[c].fd == clientSocket
      requires forall k :: 0 <= k < |rounds| ==> 0 < |rounds[k].buffer| <= BUFFER_SIZE
      requires FreshDescriptors(rounds) && AllFree(world, rounds, 0)
      modifies this
      ensures Valid() && world.mutex.Free? && InPhase(world, c, Closed)
      ensures clientSocket !in clients && clients == RemoveAll(ListedAfter(old(clients), rounds), clientSocket)
      ensures ClosesGap(ListedAfter(old(clients), rounds), clients, clientSocket)
      ensures sends == old(sends) + AllSends(old(clients), clientSocket, rounds)
      ensures forall fd, j :: fd != clientSocket && ListedFrom(old(clients), rounds, fd, j) ==>
        CallsTo(sends, fd) == CallsTo(old(sends), fd) + RoundCalls(fd, rounds, j)
      ensures world.log == old(world.log) + NewEntries(|old(world.log)|, c, rounds)
      ensures |world.log| == |old(world.log)| + |rounds| && forall k :: 0 <= k < |rounds| ==>
        world.log[|old(world.log)| + k] == Entry(|old(world.log)| + k, c, rounds[k].buffer)
      ensures world.conns[c].stream == old(world.conns[c].stream) + Joined(rounds)
      ensures world.conns[c].attempts == old(world.conns[c].attempts)
      ensures OthersServed(old(world.conns), world.conns, |old(world.log)|, c, rounds)
    {
      hide Reachable, FdInUse, FreshDescriptors, AllFree, AfterRounds, ServedAll, OthersServed, AllSends, SendsTo;
      hide OneCallEach, ClosesGap, CallsTo, RoundCalls;
      ghost var start, sent := world, [];
      NothingDone(start, c, clientSocket, rounds);
      for k := 0 to |rounds|
        invariant Valid() && world.setup.None? && world.mutex.Free?
        invariant InPhase(world, c, Reading) && world.conns[c].fd == clientSocket && AllFree(world, rounds, k)
        invariant sends == old(sends) + sent && AfterRounds(start, world, sent, c, clientSocket, rounds[..k])
      {
        ghost var before := world;
        NextIsFree(world, rounds, k);
        Serve(c, clientSocket, rounds[k]);
        ghost var calls := SendsTo(clients, clientSocket, rounds[k].buffer, rounds[k].sendOk);
        RoundDone(start, before, world, sent, calls, c, clientSocket, rounds, k);
        StillFree(before, world, rounds, k);
        sent := sent + calls;
      }
      assert rounds[..|rounds|] == rounds;
      ghost var before := world;
      RoundsPerDescriptor(start, before, old(sends), sent, c, clientSocket, rounds);
      Leave(c, clientSocket);
      AllDone(start, before, world, sent, c, clientSocket, rounds);
    }
  }

  /** The list without the one descriptor, the others in their order. */
  ghost predicate ClosesGap(before: seq<int>, after: seq<int>, fd: int) {
    exists k :: 0 <= k < |before| && before[k] == fd && after == before[..k] + before[k + 1..]
  }

  lemma GapIsClosed(s: State, c: nat)
    requires Reachable(s) && c < |s.conns| && s.conns[c].InList()
    ensures ClosesGap(s.clients, RemoveAll(s.clients, s.conns[c].fd), s.conns[c].fd)
  {
    assert DescriptorInvariant(s) by { ReachableInvariant(s); }
    var k :| 0 <= k < |s.clients| && s.clients[k] == s.conns[c].fd;
    RemoveIsSlices(s.clients, k);
  }

  /** What happens around one recv: the connections accepted before it, the data it returns, and the descriptors to
      which sending that data succeeds. */
  datatype Round = Round(accepted: seq<int>, buffer: seq<byte>, sendOk: int -> bool)

  /** No descriptor is accepted twice, since none of them is closed meanwhile. */
  ghost predicate FreshDescriptors(rounds: seq<Round>) {
    && (forall k :: 0 <= k < |rounds| ==> Distinct(rounds[k].accepted))
    && (forall k, l, fd :: 0 <= k < l < |rounds| && fd in rounds[k].accepted ==> fd !in rounds[l].accepted)
  }

  /** The descriptors still to be accepted are free. */
  ghost predicate AllFree(s: State, rounds: seq<Round>, k: nat) {
    forall j, fd :: k <= j < |rounds| && fd in rounds[j].accepted ==> !FdInUse(s, fd)
  }

  lemma NextIsFree(s: State, rounds: seq<Round>, k: nat)
    requires k < |rounds| && FreshDescriptors(rounds) && AllFree(s, rounds, k)
    ensures Distinct(rounds[k].accepted) && forall fd :: fd in rounds[k].accepted ==> !FdInUse(s, fd)
  {
  }

  lemma StillFree(s: State, s': State, rounds: seq<Round>, k: nat)
    requires k < |rounds| && FreshDescriptors(rounds) && AllFree(s, rounds, k)
    requires forall fd :: fd !in rounds[k].accepted && !FdInUse(s, fd) ==> !FdInUse(s', fd)
    ensures AllFree(s', rounds, k + 1)
  {
  }

  lemma SameDescriptors(s: State, s': State)
    requires |s.conns| == |s'.conns|
    requires forall t :: 0 <= t < |s.conns| ==>
      s'.conns[t].fd == s.conns[t].fd && (s'.conns[t].Open() <==> s.conns[t].Open())
    ensures forall fd :: FdInUse(s', fd) <==> FdInUse(s, fd)
  {
  }

  function NewEntries(base: nat, c: nat, rounds: seq<Round>): seq<Entry> {
    seq(|rounds|, k requires 0 <= k < |rounds| => Entry(base + k, c, rounds[k].buffer))
  }

  function Joined(rounds: seq<Round>): seq<byte> {
    if |rounds| == 0 then [] else Joined(rounds[..|rounds| - 1]) + rounds[|rounds| - 1].buffer
  }

  /** The list with everything accepted in the rounds. */
  function ListedAfter(clients: seq<int>, rounds: seq<Round>): seq<int> {
    if |rounds| == 0 then clients
    else ListedAfter(clients, rounds[..|rounds| - 1]) + rounds[|rounds| - 1].accepted
  }

  /** Round by round, the sends to the list of that round. */
  function AllSends(clients: seq<int>, own: int, rounds: seq<Round>): seq<SendCall> {
    if |rounds| == 0 then [] else
      var last := rounds[|rounds| - 1];
      AllSends(clients, own, rounds[..|rounds| - 1])
      + SendsTo(ListedAfter(clients, rounds), own, last.buffer, last.sendOk)
  }

  /** The calls that go to one descriptor. */
  function CallsTo(calls: seq<SendCall>, fd: int): seq<SendCall> {
    if calls == [] then [] else
      CallsTo(calls[..|calls| - 1], fd) + if calls[|calls| - 1].fd == fd then [calls[|calls| - 1]] else []
  }

  lemma {:induction false} CallsToConcat(a: seq<SendCall>, b: seq<SendCall>, fd: int)
    ensures CallsTo(a + b, fd) == CallsTo(a, fd) + CallsTo(b, fd)
  {
    if b == [] {
      assert a + b == a;
    } else {
      CallsToConcat(a, b[..|b| - 1], fd);
      assert (a + b)[..|a + b| - 1] == a + b[..|b| - 1];
    }
  }

  lemma CallsToOne(call: SendCall, fd: int)
    ensures CallsTo([call], fd) == if call.fd == fd then [call] else []
  {
    assert [call][..0] == [];
  }

  lemma {:induction false} CallsToPass(clients: seq<int>, own: int, buffer: seq<byte>, sendOk: int -> bool, fd: int)
    requires Distinct(clients) && fd != own
    ensures CallsTo(SendsTo(clients, own, buffer, sendOk), fd)
      == if fd in clients then [SendCall(fd, buffer, sendOk(fd))] else []
  {
    if clients != [] {
      var n := |clients| - 1;
      var front, last := clients[..n], clients[n];
      CallsToPass(front, own, buffer, sendOk, fd);
      assert clients == front + [last] && last !in front;
      hide SendsTo, CallsTo;
      SendsToLast(clients, own, buffer, sendOk);
      var calls, call := SendsTo(front, own, buffer, sendOk), SendCall(last, buffer, sendOk(last));
      if last == own {
        assert calls + [] == calls;
      } else {
        CallsToOne(call, fd);
        CallsToConcat(calls, [call], fd);
      }
    }
  }

  /** The list when the broadcast of round `i` is made. */
  function ListedIn(clients: seq<int>, rounds: seq<Round>, i: nat): seq<int>
    requires i < |rounds|
  {
    ListedAfter(clients, rounds[..i + 1])
  }

  /** The descriptor is listed when the broadcasts of round `j` and later ones are made, and not before. */
  ghost predicate ListedFrom(clients: seq<int>, rounds: seq<Round>, fd: int, j: nat) {
    j <= |rounds| && forall i :: 0 <= i < |rounds| ==> (fd in ListedIn(clients, rounds, i) <==> j <= i)
  }

  /** One call per round from `j` on, with the data and the outcome of the round. */
  function RoundCalls(fd: int, rounds: seq<Round>, j: nat): seq<SendCall>
    requires j <= |rounds|
  {
    seq(|rounds| - j, k requires 0 <= k < |rounds| - j =>
      SendCall(fd, rounds[j + k].buffer, rounds[j + k].sendOk(fd)))
  }

  lemma {:induction false} ListedPrefix(clients: seq<int>, rounds: seq<Round>, i: nat)
    requires i <= |rounds|
    ensures ListedAfter(clients, rounds[..i]) <= ListedAfter(clients, rounds)
    decreases |rounds|
  {
    if i < |rounds| {
      ListedPrefix(clients, rounds[..|rounds| - 1], i);
      assert rounds[..|rounds| - 1][..i] == rounds[..i];
    } else {
      assert rounds[..i] == rounds;
    }
  }

  /** Those listed at the start are listed from the first round on, those accepted before a round from that one on. */
  lemma ListedFromRound(clients: seq<int>, rounds: seq<Round>, fd: int, j: nat)
    requires Distinct(ListedAfter(clients, rounds))
    requires (j == 0 && fd in clients) || (j < |rounds| && fd in rounds[j].accepted)
    ensures ListedFrom(clients, rounds, fd, j)
  {
    forall i | 0 <= i < |rounds| ensures fd in ListedIn(clients, rounds, i) <==> j <= i {
      if fd in clients {
        ListedPrefix(clients, rounds[..i + 1], 0);
      }
      if j < |rounds| && fd in rounds[j].accepted {
        AcceptedAt(clients, rounds, fd, j, i);
      }
    }
  }

  lemma AcceptedAt(clients: seq<int>, rounds: seq<Round>, fd: int, j: nat, i: nat)
    requires Distinct(ListedAfter(clients, rounds)) && j < |rounds| && i < |rounds| && fd in rounds[j].accepted
    ensures fd in ListedAfter(clients, rounds[..i + 1]) <==> j <= i
  {
    var upTo, part := ListedAfter(clients, rounds[..j]), ListedAfter(clients, rounds[..j + 1]);
    assert rounds[..j + 1][..j] == rounds[..j];
    assert part == upTo + rounds[j].accepted;
    hide ListedAfter;
    if j <= i {
      ListedPrefix(clients, rounds[..i + 1], j + 1);
      assert rounds[..i + 1][..j + 1] == rounds[..j + 1];
      assert fd in part;
    } else {
      ListedPrefix(clients, rounds, j + 1);
      ListedPrefix(clients, rounds[..j], i + 1);
      assert rounds[..j][..i + 1] == rounds[..i + 1];
      NotBefore(ListedAfter(clients, rounds), upTo, rounds[j].accepted, fd);
    }
  }

  lemma NotBefore(all: seq<int>, front: seq<int>, back: seq<int>, fd: int)
    requires Distinct(all) && front + back <= all && fd in back
    ensures fd !in front
  {
    var k :| 0 <= k < |back| && back[k] == fd;
    assert all[|front| + k] == (front + back)[|front| + k] == fd;
    forall n | 0 <= n < |front| ensures front[n] != fd {
      assert all[n] == (front + back)[n] == front[n];
    }
  }

  lemma DistinctFront(front: seq<int>, back: seq<int>)
    requires Distinct(front + back)
    ensures Distinct(front)
  {
    assert forall i :: 0 <= i < |front| ==> (front + back)[i] == front[i];
  }

  lemma LastRoundTo(clients: seq<int>, own: int, rounds: seq<Round>, fd: int)
    requires |rounds| > 0 && Distinct(ListedAfter(clients, rounds)) && fd != own
    ensures var last := rounds[|rounds| - 1];
      CallsTo(AllSends(clients, own, rounds), fd) == CallsTo(AllSends(clients, own, rounds[..|rounds| - 1]), fd)
        + if fd in ListedAfter(clients, rounds) then [SendCall(fd, last.buffer, last.sendOk(fd))] else []
  {
    hide CallsTo, SendsTo, ListedAfter;
    var last, listed := rounds[|rounds| - 1], ListedAfter(clients, rounds);
    CallsToConcat(AllSends(clients, own, rounds[..|rounds| - 1]), SendsTo(listed, own, last.buffer, last.sendOk), fd);
    CallsToPass(listed, own, last.buffer, last.sendOk, fd);
  }

  lemma LastRoundCalls(fd: int, rounds: seq<Round>, j: nat)
    requires |rounds| > 0 && j <= |rounds|
    ensures var last, front := rounds[|rounds| - 1], rounds[..|rounds| - 1];
      && (j <= |front| ==>
            RoundCalls(fd, rounds, j) == RoundCalls(fd, front, j) + [SendCall(fd, last.buffer, last.sendOk(fd))])
      && (j > |front| ==> RoundCalls(fd, rounds, j) == [])
    ensures RoundCalls(fd, rounds, |rounds|) == []
  {
  }

  /** Over all rounds a descriptor gets one call per round from the one on in which it is first listed. */
  lemma {:induction false} AllSendsTo(clients: seq<int>, own: int, rounds: seq<Round>, fd: int, j: nat)
    requires Distinct(ListedAfter(clients, rounds)) && fd != own && ListedFrom(clients, rounds, fd, j)
    ensures CallsTo(AllSends(clients, own, rounds), fd) == RoundCalls(fd, rounds, j)
  {
    if |rounds| > 0 {
      var n := |rounds| - 1;
      var front := rounds[..n];
      assert rounds[..n + 1] == rounds;
      DistinctFront(ListedAfter(clients, front), rounds[n].accepted);
      assert fd in ListedIn(clients, rounds, n) <==> j <= n;
      hide CallsTo, AllSends, ListedFrom, RoundCalls;
      LastRoundTo(clients, own, rounds, fd);
      LastRoundCalls(fd, rounds, j);
      var i := if j <= n then j else n;
      ListedFromFront(clients, rounds, fd, i);
      AllSendsTo(clients, own, front, fd, i);
      if j > n && n > 0 {
        LastRoundCalls(fd, front, n);
      }
    } else {
      assert RoundCalls(fd, rounds, j) == [];
    }
  }

  lemma ListedFromFront(clients: seq<int>, rounds: seq<Round>, fd: int, j: nat)
    requires j < |rounds| && (ListedFrom(clients, rounds, fd, j) ||
                              (j == |rounds| - 1 && ListedFrom(clients, rounds, fd, |rounds|)))
    ensures ListedFrom(clients, rounds[..|rounds| - 1], fd, j)
  {
    var front := rounds[..|rounds| - 1];
    forall i | 0 <= i < |front| ensures fd in ListedIn(clients, front, i) <==> j <= i {
      assert front[..i + 1] == rounds[..i + 1];
      assert ListedIn(clients, front, i) == ListedIn(clients, rounds, i);
    }
  }

  lemma RoundsPerDescriptor(start: State, s: State, before: seq<SendCall>, sent: seq<SendCall>, c: nat, own: int,
                            rounds: seq<Round>)
    requires Reachable(s) && AfterRounds(start, s, sent, c, own, rounds)
    ensures forall fd, j :: fd != own && ListedFrom(start.clients, rounds, fd, j) ==>
      CallsTo(before + sent, fd) == CallsTo(before, fd) + RoundCalls(fd, rounds, j)
  {
    hide CallsTo, ListedAfter, RoundCalls, AllSends;
    assert Distinct(s.clients) by { ReachableInvariant(s); }
    forall fd, j | fd != own && ListedFrom(start.clients, rounds, fd, j)
      ensures CallsTo(before + sent, fd) == CallsTo(before, fd) + RoundCalls(fd, rounds, j)
    {
      AllSendsTo(start.clients, own, rounds, fd, j);
      CallsToConcat(before, sent, fd);
    }
  }

  lemma OneMoreRound(clients: seq<int>, own: int, base: nat, c: nat, rounds: seq<Round>, k: nat)
    requires k < |rounds|
    ensures var upTo, more, last := rounds[..k], rounds[..k + 1], rounds[k];
      && Joined(more) == Joined(upTo) + last.buffer
      && ListedAfter(clients, more) == ListedAfter(clients, upTo) + last.accepted
      && AllSends(clients, own, more)
         == AllSends(clients, own, upTo) + SendsTo(ListedAfter(clients, more), own, last.buffer, last.sendOk)
      && NewEntries(base, c, more) == NewEntries(base, c, upTo) + [Entry(base + k, c, last.buffer)]
  {
    assert rounds[..k + 1][..k] == rounds[..k];
  }

  /** The calls of send that the rounds address to the connection under one descriptor. */
  function RoundAttempts(fd: int, base: nat, c: nat, rounds: seq<Round>): seq<Attempt> {
    seq(|rounds|, k requires 0 <= k < |rounds| =>
      Attempt(Entry(base + k, c, rounds[k].buffer), rounds[k].sendOk(fd)))
  }

  /** A connection in the list after the attempts, or one that is not in it, unchanged. */
  function Served(conn: Conn, attempts: seq<Attempt>): Conn {
    if conn.InList() then conn.(attempts := conn.attempts + attempts) else conn
  }

  ghost predicate ServedAll(before: seq<Conn>, conns: seq<Conn>, c: nat, entry: Entry, sendOk: int -> bool) {
    && |before| <= |conns|
    && forall t :: 0 <= t < |before| && t != c ==>
         conns[t] == Served(before[t], [Attempt(entry, sendOk(before[t].fd))])
  }

  /** Every connection of before but `c`: one attempt per round, in order, if it is in the list. */
  ghost predicate OthersServed(before: seq<Conn>, conns: seq<Conn>, base: nat, c: nat, rounds: seq<Round>) {
    && |before| <= |conns|
    && forall t :: 0 <= t < |before| && t != c ==>
         conns[t] == Served(before[t], RoundAttempts(before[t].fd, base, c, rounds))
  }

  /** What the rounds of connection `c` have made of state `start`, with the calls of send they made. */
  ghost predicate AfterRounds(start: State, s: State, sent: seq<SendCall>, c: nat, own: int, rounds: seq<Round>) {
    && c < |start.conns| <= |s.conns|
    && s.conns[c] == start.conns[c].(stream := start.conns[c].stream + Joined(rounds))
    && s.clients == ListedAfter(start.clients, rounds)
    && sent == AllSends(start.clients, own, rounds)
    && s.log == start.log + NewEntries(|start.log|, c, rounds)
    && OthersServed(start.conns, s.conns, |start.log|, c, rounds)
  }

  lemma NothingDone(start: State, c: nat, own: int, rounds: seq<Round>)
    requires c < |start.conns|
    ensures AfterRounds(start, start, [], c, own, rounds[..0])
  {
    forall t | 0 <= t < |start.conns| && t != c
      ensures start.conns[t]
        == Served(start.conns[t], RoundAttempts(start.conns[t].fd, |start.log|, c, rounds[..0]))
    {
      assert RoundAttempts(start.conns[t].fd, |start.log|, c, rounds[..0]) == [];
    }
  }

  lemma RoundDone(start: State, s: State, s': State, sent: seq<SendCall>, calls: seq<SendCall>, c: nat, own: int,
                  rounds: seq<Round>, k: nat)
    requires k < |rounds| && AfterRounds(start, s, sent, c, own, rounds[..k])
    requires s'.clients == s.clients + rounds[k].accepted
    requires calls == SendsTo(s'.clients, own, rounds[k].buffer, rounds[k].sendOk)
    requires s'.log == s.log + [Entry(|s.log|, c, rounds[k].buffer)]
    requires ServedAll(s.conns, s'.conns, c, Entry(|s.log|, c, rounds[k].buffer), rounds[k].sendOk)
    requires c < |s'.conns| && s'.conns[c] == s.conns[c].(stream := s.conns[c].stream + rounds[k].buffer)
    ensures AfterRounds(start, s', sent + calls, c, own, rounds[..k + 1])
  {
    hide OthersServed, ServedAll, SendsTo, AllSends, Joined, ListedAfter;
    OneMoreRound(start.clients, own, |start.log|, c, rounds, k);
    OthersServedStep(start.conns, s.conns, s'.conns, |start.log|, c, rounds, k);
  }

  lemma AllDone(start: State, s: State, s': State, sent: seq<SendCall>, c: nat, own: int, rounds: seq<Round>)
    requires AfterRounds(start, s, sent, c, own, rounds) && s'.log == s.log && |s'.conns| == |s.conns|
    requires forall t :: 0 <= t < |s.conns| && t != c ==> s'.conns[t] == s.conns[t]
    requires s'.conns[c].stream == s.conns[c].stream && s'.conns[c].attempts == s.conns[c].attempts
    ensures s.clients == ListedAfter(start.clients, rounds) && sent == AllSends(start.clients, own, rounds)
    ensures s'.log == start.log + NewEntries(|start.log|, c, rounds)
    ensures s'.conns[c].stream == start.conns[c].stream + Joined(rounds)
    ensures s'.conns[c].attempts == start.conns[c].attempts
    ensures OthersServed(start.conns, s'.conns, |start.log|, c, rounds)
  {
  }

  lemma OthersServedStep(start: seq<Conn>, before: seq<Conn>, after: seq<Conn>, base: nat, c: nat, rounds: seq<Round>,
                         k: nat)
    requires k < |rounds| && OthersServed(start, before, base, c, rounds[..k])
    requires ServedAll(before, after, c, Entry(base + k, c, rounds[k].buffer), rounds[k].sendOk)
    ensures OthersServed(start, after, base, c, rounds[..k + 1])
  {
    forall t | 0 <= t < |start| && t != c
      ensures after[t] == Served(start[t], RoundAttempts(start[t].fd, base, c, rounds[..k + 1]))
    {
      var fd := start[t].fd;
      assert before[t] == Served(start[t], RoundAttempts(fd, base, c, rounds[..k]));
      assert RoundAttempts(fd, base, c, rounds[..k + 1])
        == RoundAttempts(fd, base, c, rounds[..k])
           + [Attempt(Entry(base + k, c, rounds[k].buffer), rounds[k].sendOk(fd))];
    }
  }

  /** A broadcast reaches every connection that is in the list, since its descriptor is. */
  lemma OfferedIsServed(start: seq<Conn>, s: State, s': State, c: nat, entry: Entry, sendOk: int -> bool)
    requires Reachable(s) && OfferedToAll(s.conns, s'.conns, c, s.clients, entry, sendOk)
    requires |start| <= |s.conns| && forall t :: 0 <= t < |start| && t != c ==> s.conns[t] == start[t]
    ensures ServedAll(start, s'.conns, c, entry, sendOk)
  {
    assert DescriptorInvariant(s) by { ReachableInvariant(s); }
  }

  /** One pass over the list: a send to every descriptor but the sender's own, in list order. */
  function SendsTo(clients: seq<int>, own: int, buffer: seq<byte>, sendOk: int -> bool): (r: seq<SendCall>)
    ensures forall k :: 0 <= k < |r| ==> r[k].fd in clients && r[k].fd != own && r[k].data == buffer
  {
    if clients == [] then [] else
      var fd := clients[|clients| - 1];
      SendsTo(clients[..|clients| - 1], own, buffer, sendOk)
      + (if fd == own then [] else [SendCall(fd, buffer, sendOk(fd))])
  }

  /** One call of send for every descriptor of the list before and behind the sender's own, in list order, and no
      other. */
  ghost predicate OneCallEach(calls: seq<SendCall>, clients: seq<int>, own: int, buffer: seq<byte>,
                              sendOk: int -> bool)
  {
    exists p :: 0 <= p < |clients| && clients[p] == own && CallsAround(calls, clients, p, buffer, sendOk)
  }

  ghost predicate CallsAround(calls: seq<SendCall>, clients: seq<int>, p: nat, buffer: seq<byte>, sendOk: int -> bool)
    requires p < |clients|
  {
    && |calls| == |clients| - 1
    && (forall k :: 0 <= k < p ==> calls[k] == SendCall(clients[k], buffer, sendOk(clients[k])))
    && (forall k :: p < k < |clients| ==> calls[k - 1] == SendCall(clients[k], buffer, sendOk(clients[k])))
  }

  lemma SendsToLast(clients: seq<int>, own: int, buffer: seq<byte>, sendOk: int -> bool)
    requires clients != []
    ensures var fd := clients[|clients| - 1];
      SendsTo(clients, own, buffer, sendOk) == SendsTo(clients[..|clients| - 1], own, buffer, sendOk)
        + (if fd == own then [] else [SendCall(fd, buffer, sendOk(fd))])
  {
  }

  lemma {:induction false} CallsWithoutOwn(clients: seq<int>, own: int, buffer: seq<byte>, sendOk: int -> bool)
    requires own !in clients
    ensures SendsTo(clients, own, buffer, sendOk) == CallsFor(clients, buffer, sendOk)
  {
    if clients != [] {
      var n := |clients| - 1;
      hide SendsTo;
      assert clients[n] in clients;
      SendsToLast(clients, own, buffer, sendOk);
      CallsWithoutOwn(clients[..n], own, buffer, sendOk);
      assert CallsFor(clients, buffer, sendOk)
        == CallsFor(clients[..n], buffer, sendOk) + [SendCall(clients[n], buffer, sendOk(clients[n]))];
    }
  }

  /** The calls of send to all of the descriptors. */
  function CallsFor(fds: seq<int>, buffer: seq<byte>, sendOk: int -> bool): seq<SendCall> {
    seq(|fds|, k requires 0 <= k < |fds| => SendCall(fds[k], buffer, sendOk(fds[k])))
  }

  lemma {:induction false} CallsAroundOwn(clients: seq<int>, p: nat, buffer: seq<byte>, sendOk: int -> bool)
    requires Distinct(clients) && p < |clients|
    ensures SendsTo(clients, clients[p], buffer, sendOk)
      == CallsFor(clients[..p], buffer, sendOk) + CallsFor(clients[p + 1..], buffer, sendOk)
  {
    var n := |clients| - 1;
    hide SendsTo;
    SendsToLast(clients, clients[p], buffer, sendOk);
    if p < n {
      CallsAroundOwn(clients[..n], p, buffer, sendOk);
      assert clients[..n][..p] == clients[..p];
      assert CallsFor(clients[p + 1..], buffer, sendOk)
        == CallsFor(clients[..n][p + 1..], buffer, sendOk) + [SendCall(clients[n], buffer, sendOk(clients[n]))];
    } else {
      CallsWithoutOwn(clients[..n], clients[p], buffer, sendOk);
      assert CallsFor(clients[p + 1..], buffer, sendOk) == [];
    }
  }

  lemma AroundInOrder(clients: seq<int>, p: nat, buffer: seq<byte>, sendOk: int -> bool)
    requires p < |clients|
    ensures var calls := CallsFor(clients[..p], buffer, sendOk) + CallsFor(clients[p + 1..], buffer, sendOk);
      CallsAround(calls, clients, p, buffer, sendOk)
  {
    var front, back := CallsFor(clients[..p], buffer, sendOk), CallsFor(clients[p + 1..], buffer, sendOk);
    forall k | p < k < |clients|
      ensures (front + back)[k - 1] == SendCall(clients[k], buffer, sendOk(clients[k]))
    {
      assert back[k - 1 - p] == SendCall(clients[p + 1..][k - 1 - p], buffer, sendOk(clients[p + 1..][k - 1 - p]));
    }
  }

  lemma CallsAreOneEach(s: State, c: nat, buffer: seq<byte>, sendOk: int -> bool)
    requires Reachable(s) && c < |s.conns| && s.conns[c].InList()
    ensures OneCallEach(SendsTo(s.clients, s.conns[c].fd, buffer, sendOk), s.clients, s.conns[c].fd, buffer, sendOk)
  {
    hide SendsTo, CallsFor, CallsAround, HasListed;
    assert DescriptorInvariant(s) by { ReachableInvariant(s); }
    var p :| 0 <= p < |s.clients| && s.clients[p] == s.conns[c].fd;
    CallsAroundOwn(s.clients, p, buffer, sendOk);
    AroundInOrder(s.clients, p, buffer, sendOk);
  }

  /** A connection after the entry was sent to the descriptors `reached`. */
  function Offered(conn: Conn, reached: seq<int>, entry: Entry, sendOk: int -> bool): Conn {
    if conn.InList() && conn.fd in reached then conn.(attempts := conn.attempts + [Attempt(entry, sendOk(conn.fd))])
    else conn
  }

  /** Every connection but the sender's, after the entry was sent to the descriptors `reached`. */
  ghost predicate OfferedToAll(before: seq<Conn>, conns: seq<Conn>, c: nat, reached: seq<int>, entry: Entry,
                               sendOk: int -> bool)
  {
    && |before| == |conns|
    && forall t :: 0 <= t < |conns| && t != c ==> conns[t] == Offered(before[t], reached, entry, sendOk)
  }

  lemma OfferedToNone(before: seq<Conn>, conns: seq<Conn>, c: nat, clients: seq<int>, entry: Entry,
                      sendOk: int -> bool)
    requires |before| == |conns| && forall t :: 0 <= t < |conns| && t != c ==> conns[t] == before[t]
    ensures OfferedToAll(before, conns, c, clients[..0], entry, sendOk)
  {
  }

  lemma OfferedStays(before: seq<Conn>, conns: seq<Conn>, after: seq<Conn>, c: nat, reached: seq<int>, entry: Entry,
                     sendOk: int -> bool)
    requires OfferedToAll(before, conns, c, reached, entry, sendOk)
    requires |after| == |conns| && forall t :: 0 <= t < |conns| && t != c ==> after[t] == conns[t]
    ensures OfferedToAll(before, after, c, reached, entry, sendOk)
  {
  }

  lemma SendStep(s: State, c: nat, n: nat, ok: bool, s': State, before: seq<Conn>, sendOk: int -> bool)
    requires Reachable(s) && s.mutex == Held(c, n) && InPhase(s, c, Sending) && n < |s.clients| && s.log != []
    requires OfferedToAll(before, s.conns, c, s.clients[..n], s.log[|s.log| - 1], sendOk)
    requires s' == s.(mutex := Held(c, n + 1), conns := s'.conns)
    requires s'.conns == if s.clients[n] == s.conns[c].fd then s.conns
                         else Deliver(s.conns, s.clients[n], Attempt(s.log[|s.log| - 1], ok))
    requires s.clients[n] != s.conns[c].fd ==> ok == sendOk(s.clients[n])
    ensures Reachable(s') && |s'.conns| == |s.conns| && s'.conns[c] == s.conns[c]
    ensures OfferedToAll(before, s'.conns, c, s.clients[..n + 1], s.log[|s.log| - 1], sendOk)
  {
    assert Sends(s, c, ok, s');
    ReachableStep(s, SendNext(c, ok), s');
    assert DescriptorInvariant(s) by { ReachableInvariant(s); }
    SendReaches(s, c, ok, s', c);
    forall t | 0 <= t < |s.conns| && t != c
      ensures s'.conns[t] == Offered(before[t], s.clients[..n + 1], s.log[|s.log| - 1], sendOk)
    {
      OfferedNext(s, c, n, ok, s', before, sendOk, t);
    }
  }

  lemma OfferedNext(s: State, c: nat, n: nat, ok: bool, s': State, before: seq<Conn>, sendOk: int -> bool, t: nat)
    requires DescriptorInvariant(s) && s.mutex == Held(c, n) && Sends(s, c, ok, s') && t < |s.conns| && t != c
    requires |before| == |s.conns|
    requires s.conns[t] == Offered(before[t], s.clients[..n], s.log[|s.log| - 1], sendOk)
    requires s.clients[n] != s.conns[c].fd ==> ok == sendOk(s.clients[n])
    requires InPhase(s, c, Sending)
    ensures s'.conns[t] == Offered(before[t], s.clients[..n + 1], s.log[|s.log| - 1], sendOk)
  {
    hide Deliver, HasListed;
    SendReaches(s, c, ok, s', t);
    assert s.clients[..n + 1] == s.clients[..n] + [s.clients[n]];
    FirstOccurrence(s.clients, n);
  }
}

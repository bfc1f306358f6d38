/** What holds in every reachable state of the relay, for every interleaving of its threads: the descriptor list,
    the total order of broadcasts, and the byte streams. */
module RelayRuns {
  import opened Basics
  import opened Relay

  // ---------------------------------------------------------------- descriptors

  /** The list has no duplicates, and each descriptor in it is open for exactly one connection, which is in the list
      and whose thread is alive or about to start. */
  lemma ListedDescriptors(s: State, fd: int)
    requires Reachable(s) && fd in s.clients
    ensures Distinct(s.clients)
    ensures exists t :: 0 <= t < |s.conns| && IsOwner(s, t, fd)
    ensures forall t, u :: 0 <= t < |s.conns| && 0 <= u < |s.conns| && OpensFd(s, t, fd) && OpensFd(s, u, fd) ==> t == u
  {
    ReachableInvariant(s);
    assert HasListed(s, fd);
    var t :| 0 <= t < |s.conns| && s.conns[t].InList() && s.conns[t].fd == fd;
    assert IsOwner(s, t, fd);
    forall u | 0 <= u < |s.conns| && OpensFd(s, u, fd) ensures u == t {
    }
  }

  predicate OpensFd(s: State, t: nat, fd: int)
    requires t < |s.conns|
  {
    s.conns[t].Open() && s.conns[t].fd == fd
  }

  predicate IsOwner(s: State, t: nat, fd: int)
    requires t < |s.conns|
  {
    OpensFd(s, t, fd) && s.conns[t].InList()
  }

  /** Each send of a broadcast reaches one connection, in the list and not closed, and changes no other, even while
      other threads accept and close descriptors between the sends. */
  lemma SendReachesOwner(s: State, c: nat, ok: bool, s': State) returns (u: nat)
    requires Reachable(s) && Next(s, SendNext(c, ok), s')
    requires s.clients[s.mutex.next] != s.conns[c].fd
    ensures u < |s.conns| == |s'.conns| && u != c && IsOwner(s, u, s.clients[s.mutex.next])
    ensures s'.conns[u].attempts == s.conns[u].attempts + [Attempt(s.log[|s.log| - 1], ok)]
    ensures forall t :: 0 <= t < |s.conns| && t != u ==> s'.conns[t] == s.conns[t]
  {
    ReachableInvariant(s);
    var fd := s.clients[s.mutex.next];
    assert HasListed(s, fd);
    u :| 0 <= u < |s.conns| && s.conns[u].InList() && s.conns[u].fd == fd;
    SendReaches(s, c, ok, s', u);
    forall t | 0 <= t < |s.conns| && t != u ensures s'.conns[t] == s.conns[t] {
      SendReaches(s, c, ok, s', t);
    }
  }

  /** Why erasing comes before closing: closed while still listed, a descriptor in the list would be free for the
      next accept. */
  lemma CloseBeforeErase(s: State, c: nat)
    requires Reachable(s) && InPhase(s, c, Ending)
    ensures s.conns[c].fd in s.clients
    ensures var s' := WithPhase(s, c, Closed);
      s.conns[c].fd in s'.clients && !FdInUse(s', s.conns[c].fd)
  {
    ReachableInvariant(s);
    assert s.conns[c].InList();
  }

  /** The broadcast that is about to reach the descriptor of `c`, whose thread is ending. */
  ghost predicate ReachesEnding(s: State, c: nat, d: nat, n: nat) {
    && InPhase(s, c, Ending) && s.setup.None?
    && s.mutex == Held(d, n) && n < |s.clients| && s.clients[n] == s.conns[c].fd
  }

  /** Closed first, the descriptor would be sent the broadcast when it is open for nobody, and all connections would
      stay as they are; or, if the accept loop were given it in between, when it belongs to a connection that is not
      registered, which would get the data. */
  lemma CloseFirstMisdirects(s: State, c: nat, d: nat, n: nat, ok: bool)
    returns (closed: State, lost: State, accepted: State, misdirected: State)
    requires Reachable(s) && ReachesEnding(s, c, d, n)
    ensures closed == WithPhase(s, c, Closed)
    ensures Next(closed, SendNext(d, ok), lost) && lost.conns == closed.conns
    ensures Next(closed, Accept(s.conns[c].fd), accepted) && Next(accepted, SendNext(d, ok), misdirected)
    ensures |misdirected.conns| == |s.conns| + 1 && s.log != []
    ensures misdirected.conns[|s.conns|].phase.Accepted?
    ensures misdirected.conns[|s.conns|].attempts == [Attempt(s.log[|s.log| - 1], ok)]
  {
    assert DescriptorInvariant(s) && ThreadInvariant(s) by { ReachableInvariant(s); }
    CloseBeforeErase(s, c);
    var fd, attempt := s.conns[c].fd, Attempt(s.log[|s.log| - 1], ok);
    closed := WithPhase(s, c, Closed);
    lost := closed.(mutex := Held(d, n + 1), conns := Deliver(closed.conns, fd, attempt));
    accepted := closed.(setup := Some(|closed.conns|), conns := closed.conns + [Conn(fd, Accepted, 0, 0, [], [])]);
    misdirected := accepted.(mutex := Held(d, n + 1), conns := Deliver(accepted.conns, fd, attempt));
    assert s.conns[c].Open() && s.conns[d].Open() && d != c && s.conns[d].fd != fd;
    assert !FdInUse(closed, fd);
    hide DescriptorInvariant, ThreadInvariant, Deliver;
    NobodyGets(closed, fd, attempt);
  }

  lemma NobodyGets(s: State, fd: int, attempt: Attempt)
    requires !FdInUse(s, fd)
    ensures Deliver(s.conns, fd, attempt) == s.conns
  {
  }

  /** The next connection accepted, registered and started in a quiet state. */
  lemma AcceptedAndStarted(s: State, fd: int) returns (s': State)
    requires Reachable(s) && s.setup.None? && s.mutex.Free? && !FdInUse(s, fd)
    ensures Reachable(s')
    ensures s' == s.(clients := s.clients + [fd], conns := s.conns + [Conn(fd, Reading, |s.log|, 0, [], [])])
  {
    var c := |s.conns|;
    var accepted := s.(setup := Some(c), conns := s.conns + [Conn(fd, Accepted, 0, 0, [], [])]);
    ReachableStep(s, Accept(fd), accepted);
    var listed := accepted.(clients := s.clients + [fd],
      conns := accepted.conns[c := accepted.conns[c].(phase := Listed, joined := |s.log|)]);
    ReachableStep(accepted, Register, listed);
    s' := WithPhase(listed, c, Reading).(setup := None);
    ReachableStep(listed, StartThread, s');
  }

  /** Such a broadcast does happen: of two connections the second sends while the first ends. */
  lemma BroadcastReachesEnding(fd: int, other: int, chunk: seq<byte>) returns (s: State)
    requires fd != other && 0 < |chunk| <= BUFFER_SIZE
    ensures Reachable(s) && ReachesEnding(s, 0, 1, 0)
  {
    RunsNowhere(INIT);
    s := AcceptedAndStarted(INIT, fd);
    var two := AcceptedAndStarted(s, other);
    var received := two.(conns := two.conns[1 := Conn(other, Holding(chunk), 0, 0, [], [] + chunk)]);
    ReachableStep(two, Receive(1, chunk), received);
    var locked := WithPhase(received, 1, Sending).(mutex := Held(1, 0), log := [] + [Entry(0, 1, chunk)]);
    ReachableStep(received, LockForBroadcast(1), locked);
    s := WithPhase(locked, 0, Ending);
    ReachableStep(locked, Finish(0), s);
  }

  /** recv returns up to 4096 bytes, and any of these chunks can be what it returns. */
  lemma ReceiveSizes(s: State, c: nat, chunk: seq<byte>)
    requires InPhase(s, c, Reading)
    ensures (exists s' :: Next(s, Receive(c, chunk), s')) <==> 0 < |chunk| <= 4096
  {
    if 0 < |chunk| <= 4096 {
      var conn := s.conns[c].(phase := Holding(chunk), stream := s.conns[c].stream + chunk);
      assert Next(s, Receive(c, chunk), s.(conns := s.conns[c := conn]));
    }
  }

  /** What waits for the mutex: listing a connection, broadcasting and erasing; nothing else does, so that accepting,
      starting a thread, receiving, ending and closing go on between the sends of a broadcast. */
  lemma WhatTheMutexBlocks(s: State, c: nat, fd: int)
    ensures (exists s' :: Next(s, Register, s')) <==>
      s.setup.Some? && InPhase(s, s.setup.value, Accepted) && s.mutex.Free?
    ensures (exists s' :: Next(s, LockForBroadcast(c), s')) <==>
      c < |s.conns| && s.conns[c].phase.Holding? && s.mutex.Free?
    ensures (exists s' :: Next(s, Remove(c), s')) <==> InPhase(s, c, Ending) && s.mutex.Free?
    ensures (exists s' :: Next(s, Accept(fd), s')) <==> s.setup.None? && !FdInUse(s, fd)
    ensures (exists s' :: Next(s, StartThread, s')) <==> s.setup.Some? && InPhase(s, s.setup.value, Listed)
    ensures (exists s' :: Next(s, Finish(c), s')) <==> InPhase(s, c, Reading)
    ensures (exists s' :: Next(s, Close(c), s')) <==> InPhase(s, c, Removed)
  {
    ListSteps(s, c);
    FreeSteps(s, c, fd);
  }

  lemma ListSteps(s: State, c: nat)
    ensures s.setup.Some? && InPhase(s, s.setup.value, Accepted) && s.mutex.Free? ==> exists s' :: Next(s, Register, s')
    ensures c < |s.conns| && s.conns[c].phase.Holding? && s.mutex.Free? ==>
      exists s' :: Next(s, LockForBroadcast(c), s')
    ensures InPhase(s, c, Ending) && s.mutex.Free? ==> exists s' :: Next(s, Remove(c), s')
  {
    if s.setup.Some? && InPhase(s, s.setup.value, Accepted) && s.mutex.Free? {
      var t := s.setup.value;
      assert Next(s, Register, s.(clients := s.clients + [s.conns[t].fd],
        conns := s.conns[t := s.conns[t].(phase := Listed, joined := |s.log|)]));
    }
    if c < |s.conns| && s.conns[c].phase.Holding? && s.mutex.Free? {
      assert Next(s, LockForBroadcast(c), WithPhase(s, c, Sending).(
        mutex := Held(c, 0), log := s.log + [Entry(|s.log|, c, s.conns[c].phase.chunk)]));
    }
    if InPhase(s, c, Ending) && s.mutex.Free? {
      assert Next(s, Remove(c), s.(clients := RemoveAll(s.clients, s.conns[c].fd),
        conns := s.conns[c := s.conns[c].(phase := Removed, left := |s.log|)]));
    }
  }

  lemma FreeSteps(s: State, c: nat, fd: int)
    ensures s.setup.None? && !FdInUse(s, fd) ==> exists s' :: Next(s, Accept(fd), s')
    ensures s.setup.Some? && InPhase(s, s.setup.value, Listed) ==> exists s' :: Next(s, StartThread, s')
    ensures InPhase(s, c, Reading) ==> exists s' :: Next(s, Finish(c), s')
    ensures InPhase(s, c, Removed) ==> exists s' :: Next(s, Close(c), s')
  {
    if s.setup.None? && !FdInUse(s, fd) {
      assert Next(s, Accept(fd), s.(setup := Some(|s.conns|), conns := s.conns + [Conn(fd, Accepted, 0, 0, [], [])]));
    }
    if s.setup.Some? && InPhase(s, s.setup.value, Listed) {
      assert Next(s, StartThread, WithPhase(s, s.setup.value, Reading).(setup := None));
    }
    if InPhase(s, c, Reading) {
      assert Next(s, Finish(c), WithPhase(s, c, Ending));
    }
    if InPhase(s, c, Removed) {
      assert Next(s, Close(c), WithPhase(s, c, Closed));
    }
  }

  // ---------------------------------------------------------------- total order

  /** The log position up to which a connection has been offered the broadcasts. */
  ghost function OfferedEnd(s: State, c: nat): int
    requires c < |s.conns|
  {
    OfferedUpTo(s.clients, s.mutex, |s.log|, s.conns[c])
  }

  /** What a registered connection has been sent is the global log from its registration on, without its own
      chunks: to its removal if it has left, to the end of the log if it has not and no broadcast is under way. */
  lemma OfferedExactly(s: State, c: nat)
    requires Reachable(s) && c < |s.conns| && !s.conns[c].phase.Accepted?
    ensures 0 <= s.conns[c].joined <= OfferedEnd(s, c) <= |s.log|
    ensures Entries(s.conns[c].attempts) == Others(s.log[s.conns[c].joined..OfferedEnd(s, c)], c)
    ensures s.conns[c].Left() ==> OfferedEnd(s, c) == s.conns[c].left
    ensures s.conns[c].InList() ==> |s.log| - 1 <= OfferedEnd(s, c)
    ensures s.conns[c].InList() && s.mutex.Free? ==> OfferedEnd(s, c) == |s.log|
  {
    ReachableInvariant(s);
    assert OfferAt(s, c);
  }

  lemma {:induction false} OthersContents(log: seq<Entry>, base: nat, c: nat)
    requires forall k :: 0 <= k < |log| ==> log[k].id == base + k
    ensures forall e :: e in Others(log, c) <==> e in log && e.from != c
    ensures forall i, j :: 0 <= i < j < |Others(log, c)| ==> Others(log, c)[i].id < Others(log, c)[j].id
  {
    if log != [] {
      var front, last := log[..|log| - 1], log[|log| - 1];
      OthersContents(front, base, c);
      assert log == front + [last];
    }
  }

  /** A broadcast is sent to a connection if and only if it happened while the connection was registered and came
      from another one; so nobody is echoed. Sends follow the log. */
  lemma OfferedIff(s: State, c: nat, e: Entry)
    requires Reachable(s) && c < |s.conns| && !s.conns[c].phase.Accepted?
    ensures OfferedEnd(s, c) <= |s.log|
    ensures e in Entries(s.conns[c].attempts)
      <==> s.conns[c].joined <= e.id < OfferedEnd(s, c) && s.log[e.id] == e && e.from != c
    ensures IncreasingIds(Entries(s.conns[c].attempts))
  {
    OfferedExactly(s, c);
    assert LogInvariant(s) by { ReachableInvariant(s); }
    PartContents(s.log, s.conns[c].joined, OfferedEnd(s, c), c, e);
  }

  lemma PartContents(log: seq<Entry>, from: nat, end: nat, c: nat, e: Entry)
    requires from <= end <= |log| && forall k :: 0 <= k < |log| ==> log[k].id == k
    ensures e in Others(log[from..end], c) <==> from <= e.id < end && log[e.id] == e && e.from != c
    ensures IncreasingIds(Others(log[from..end], c))
  {
    hide Others;
    var part := log[from..end];
    OthersContents(part, from, c);
    if e in part {
      var k :| 0 <= k < |part| && part[k] == e;
      assert log[from + k] == e;
    }
    if from <= e.id < end && log[e.id] == e {
      assert part[e.id - from] == e;
    }
  }

  ghost predicate IncreasingIds(entries: seq<Entry>) {
    forall i, j :: 0 <= i < j < |entries| ==> entries[i].id < entries[j].id
  }

  lemma {:induction false} ReceivedIsPart(attempts: seq<Attempt>)
    requires IncreasingIds(Entries(attempts))
    ensures forall e :: e in Received(attempts) ==> e in Entries(attempts)
    ensures IncreasingIds(Received(attempts))
  {
    if attempts != [] {
      var front, last := attempts[..|attempts| - 1], attempts[|attempts| - 1];
      assert Entries(attempts) == Entries(front) + [last.entry];
      forall i | 0 <= i < |front| ensures Entries(front)[i] == Entries(attempts)[i] {}
      ReceivedIsPart(front);
      forall e | e in Received(front) ensures e.id < last.entry.id {
        var i :| 0 <= i < |front| && Entries(front)[i] == e;
        assert Entries(attempts)[i] == e && Entries(attempts)[|front|] == last.entry;
      }
    }
  }

  /** What is received is what was sent and did not fail, and nothing else. */
  lemma {:induction false} ReceivedIff(attempts: seq<Attempt>, e: Entry)
    ensures e in Received(attempts) <==> exists k :: 0 <= k < |attempts| && attempts[k].ok && attempts[k].entry == e
  {
    if attempts != [] {
      var n := |attempts| - 1;
      var front := attempts[..n];
      ReceivedIff(front, e);
      if e in Received(front) {
        var k :| 0 <= k < |front| && front[k].ok && front[k].entry == e;
        assert attempts[k] == front[k];
      }
      if exists k :: 0 <= k < |attempts| && attempts[k].ok && attempts[k].entry == e {
        var k :| 0 <= k < |attempts| && attempts[k].ok && attempts[k].entry == e;
        assert k < n ==> front[k] == attempts[k];
      }
    }
  }

  /** A connection receives a broadcast if and only if it fell in its interval, came from another and the one send of it
      to this connection did not fail; and it receives in the order of the log. */
  lemma ReceivedExactly(s: State, c: nat, e: Entry)
    requires Reachable(s) && c < |s.conns|
    ensures e in Received(s.conns[c].attempts) <==>
      exists k :: 0 <= k < |s.conns[c].attempts| && s.conns[c].attempts[k].ok && s.conns[c].attempts[k].entry == e
    ensures IncreasingIds(Received(s.conns[c].attempts))
    ensures e in Received(s.conns[c].attempts) ==>
      s.conns[c].joined <= e.id < OfferedEnd(s, c) <= |s.log| && s.log[e.id] == e && e.from != c
    ensures forall k, l :: 0 <= k < l < |s.conns[c].attempts| ==>
      s.conns[c].attempts[k].entry.id < s.conns[c].attempts[l].entry.id
  {
    ReachableInvariant(s);
    assert OfferAt(s, c);
    var attempts := s.conns[c].attempts;
    ReceivedIff(attempts, e);
    if !s.conns[c].phase.Accepted? {
      OfferedIff(s, c, e);
      ReceivedIsPart(attempts);
      forall k, l | 0 <= k < l < |attempts| ensures attempts[k].entry.id < attempts[l].entry.id {
        assert Entries(attempts)[k] == attempts[k].entry && Entries(attempts)[l] == attempts[l].entry;
      }
    }
  }

  /** Total order, sends failing or not: two connections that both received two broadcasts received them in the same
      order, which is the order of the log; and neither received anything of its own. */
  lemma TotalOrder(s: State, c: nat, d: nat, i: nat, j: nat, k: nat, l: nat)
    requires Reachable(s) && c < |s.conns| && d < |s.conns|
    requires i < j < |Received(s.conns[c].attempts)|
    requires k < |Received(s.conns[d].attempts)| && l < |Received(s.conns[d].attempts)|
    requires Received(s.conns[c].attempts)[i] == Received(s.conns[d].attempts)[k]
    requires Received(s.conns[c].attempts)[j] == Received(s.conns[d].attempts)[l]
    ensures k < l
    ensures Received(s.conns[c].attempts)[i].id < Received(s.conns[c].attempts)[j].id < |s.log|
    ensures Received(s.conns[c].attempts)[i].from !in {c, d}
  {
    hide Reachable, Received, OfferedEnd;
    var x, y := Received(s.conns[c].attempts)[i], Received(s.conns[c].attempts)[j];
    ReceivedExactly(s, c, x);
    ReceivedExactly(s, c, y);
    ReceivedExactly(s, d, x);
  }

  // ---------------------------------------------------------------- byte streams

  ghost predicate NoFailures(attempts: seq<Attempt>) {
    forall k :: 0 <= k < |attempts| ==> attempts[k].ok
  }

  lemma {:induction false} ReceivedAll(attempts: seq<Attempt>)
    requires NoFailures(attempts)
    ensures Received(attempts) == Entries(attempts)
  {
    if attempts != [] {
      var front := attempts[..|attempts| - 1];
      ReceivedAll(front);
      assert Entries(attempts) == Entries(front) + [attempts[|attempts| - 1].entry];
    }
  }

  lemma {:induction false} DataOfOthers(log: seq<Entry>, c: nat, d: nat)
    requires c != d
    ensures DataFrom(Others(log, c), d) == DataFrom(log, d)
  {
    if log != [] {
      var front, last := log[..|log| - 1], log[|log| - 1];
      DataOfOthers(front, c, d);
      if last.from == c {
        assert Others(log, c) == Others(front, c);
      } else {
        DataExtends(Others(front, c), last, d);
      }
    }
  }

  lemma {:induction false} DataOfConcat(a: seq<Entry>, b: seq<Entry>, d: nat)
    ensures DataFrom(a + b, d) == DataFrom(a, d) + DataFrom(b, d)
  {
    if b == [] {
      assert a + b == a;
    } else {
      DataOfConcat(a, b[..|b| - 1], d);
      assert (a + b)[..|a + b| - 1] == a + b[..|b| - 1];
    }
  }

  /** Without send failures, what a connection received from another one is a contiguous piece of the bytes read from
      that one, in order: from what was broadcast before the receiver registered to what has been offered to it. */
  lemma StreamFidelity(s: State, c: nat, d: nat)
    requires Reachable(s) && c < |s.conns| && d < |s.conns| && c != d
    requires !s.conns[c].phase.Accepted? && NoFailures(s.conns[c].attempts)
    ensures 0 <= s.conns[c].joined <= OfferedEnd(s, c) <= |s.log|
    ensures var from, to := |DataFrom(s.log[..s.conns[c].joined], d)|, |DataFrom(s.log[..OfferedEnd(s, c)], d)|;
      && from <= to <= |s.conns[d].stream|
      && DataFrom(Received(s.conns[c].attempts), d) == s.conns[d].stream[from..to]
  {
    hide DataFrom, Others, Received, Entries;
    OfferedExactly(s, c);
    assert StreamInvariant(s.log, d, s.conns[d]) by {
      ReachableInvariant(s);
      assert OfferAt(s, d);
    }
    ReceivedAll(s.conns[c].attempts);
    PartOfData(s.log, s.conns[c].joined, OfferedEnd(s, c), c, d);
  }

  /** The data from `d` in a part of the log is a slice of all data from `d`. */
  lemma PartOfData(log: seq<Entry>, from: nat, end: nat, c: nat, d: nat)
    requires from <= end <= |log| && c != d
    ensures var a, b := |DataFrom(log[..from], d)|, |DataFrom(log[..end], d)|;
      a <= b <= |DataFrom(log, d)| && DataFrom(Others(log[from..end], c), d) == DataFrom(log, d)[a..b]
  {
    DataOfOthers(log[from..end], c, d);
    DataOfConcat(log[..from], log[from..end], d);
    assert log[..from] + log[from..end] == log[..end];
    DataOfConcat(log[..end], log[end..], d);
    assert log[..end] + log[end..] == log;
  }

  // ---------------------------------------------------------------- the histories are the run's

  function BytesReceived(es: seq<Event>, c: nat): seq<byte> {
    if es == [] then [] else
      var e := es[|es| - 1];
      BytesReceived(es[..|es| - 1], c) + if e.Receive? && e.c == c then e.chunk else []
  }

  /** The connections that took the mutex for a broadcast, in order. */
  function LockOrder(es: seq<Event>): seq<nat> {
    if es == [] then [] else
      var e := es[|es| - 1];
      LockOrder(es[..|es| - 1]) + if e.LockForBroadcast? then [e.c] else []
  }

  ghost predicate RecordsEvents(s: State, es: seq<Event>) {
    && |s.log| == |LockOrder(es)|
    && (forall k :: 0 <= k < |s.log| ==> s.log[k].from == LockOrder(es)[k])
    && (forall c :: 0 <= c < |s.conns| ==> s.conns[c].stream == BytesReceived(es, c))
    && (forall c :: |s.conns| <= c ==> BytesReceived(es, c) == [])
  }

  /** The global log is the order in which the mutex was taken for broadcasts, and a connection's stream is what its
      recv calls returned. */
  lemma {:induction false} HistoryOfRun(trace: seq<State>, es: seq<Event>, n: nat)
    requires IsRun(trace, es) && trace[0] == INIT && n <= |es|
    ensures RecordsEvents(trace[n], es[..n])
  {
    if n > 0 {
      HistoryOfRun(trace, es, n - 1);
      assert es[..n][..n - 1] == es[..n - 1];
      RecordStep(trace[n - 1], es[..n], trace[n]);
    }
  }

  lemma RecordStep(s: State, es: seq<Event>, s': State)
    requires es != [] && RecordsEvents(s, es[..|es| - 1]) && Next(s, es[|es| - 1], s')
    ensures RecordsEvents(s', es)
  {
    var e := es[|es| - 1];
    LogStep(s, e, s');
    forall c: nat ensures BytesReceived(es, c) == StreamOf(s', c) {
      StreamStep(s, e, s', c);
    }
  }

  lemma LogStep(s: State, e: Event, s': State)
    requires Next(s, e, s')
    ensures |s'.log| == |s.log| + if e.LockForBroadcast? then 1 else 0
    ensures s.log <= s'.log && (e.LockForBroadcast? ==> s'.log[|s.log|].from == e.c)
  {
  }

  function StreamOf(s: State, c: nat): seq<byte> {
    if c < |s.conns| then s.conns[c].stream else []
  }

  lemma StreamStep(s: State, e: Event, s': State, c: nat)
    requires Next(s, e, s')
    ensures |s.conns| <= |s'.conns| && (e.Receive? ==> e.c < |s.conns|)
    ensures c < |s'.conns| ==>
      s'.conns[c].stream == StreamOf(s, c) + if e.Receive? && e.c == c then e.chunk else []
  {
  }

  /** A connection's interval of the log begins when it is registered. */
  lemma {:induction false} JoinedAtRegister(trace: seq<State>, es: seq<Event>, m: nat, n: nat, c: nat)
    requires IsRun(trace, es) && m < n <= |es|
    requires es[m].Register? && trace[m].setup == Some(c)
    ensures c < |trace[n].conns| && !trace[n].conns[c].phase.Accepted? && trace[n].conns[c].joined == |trace[m].log|
    decreases n
  {
    assert Next(trace[m], es[m], trace[m + 1]);
    if m + 1 < n {
      JoinedAtRegister(trace, es, m, n - 1, c);
      IntervalKept(trace[n - 1], es[n - 1], trace[n], c);
    }
  }

  /** And it ends when the connection is removed. */
  lemma {:induction false} LeftAtRemove(trace: seq<State>, es: seq<Event>, m: nat, n: nat, c: nat)
    requires IsRun(trace, es) && m < n <= |es| && es[m] == Remove(c)
    ensures c < |trace[n].conns| && trace[n].conns[c].Left() && trace[n].conns[c].left == |trace[m].log|
    decreases n
  {
    assert Next(trace[m], es[m], trace[m + 1]);
    if m + 1 < n {
      LeftAtRemove(trace, es, m, n - 1, c);
      IntervalKept(trace[n - 1], es[n - 1], trace[n], c);
    }
  }

  lemma IntervalKept(s: State, e: Event, s': State, c: nat)
    requires Next(s, e, s') && c < |s.conns| && !s.conns[c].phase.Accepted?
    ensures c < |s'.conns| && !s'.conns[c].phase.Accepted? && s'.conns[c].joined == s.conns[c].joined
    ensures s.conns[c].Left() ==> s'.conns[c].Left() && s'.conns[c].left == s.conns[c].left
  {
  }
}

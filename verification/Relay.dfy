/** The relay server as a state machine over the steps of its threads (TCPS/Server/TCPS.cpp; the same code is in
    TCPMeasure/Audio/TCPLBSr.cpp and TCPattempt/TCP_server/TCPserver2.cpp). A broadcast is not one step: the mutex is
    taken, the sends follow one at a time, the mutex is released, and between any two of these the other threads may
    accept, receive, finish and close. A connection is named by the order of its accept, so that a descriptor used
    again belongs to a new connection. */
module Relay {
  import opened Basics

  const BUFFER_SIZE: nat := 4096

  datatype Phase =
    | Accepted                      // accept returned, not in the list yet
    | Listed                        // in the list, its thread about to start
    | Reading                       // its thread is in recv
    | Holding(chunk: seq<byte>)     // recv returned data, waiting for the mutex
    | Sending                       // its thread holds the mutex and walks the list
    | Ending                        // recv returned 0 or -1, waiting for the mutex
    | Removed                       // erased from the list
    | Closed

  /** A broadcast: its position in the global order, the connection it came from and its data. */
  datatype Entry = Entry(id: nat, from: nat, data: seq<byte>)

  /** A call of send, whole or failed. */
  datatype Attempt = Attempt(entry: Entry, ok: bool)

  /** `fd` and `phase` are real. The history: the length of the global log when the connection was registered and
      when it was removed, the sends addressed to it, and the bytes received from it. */
  datatype Conn = Conn(
    fd: int,
    phase: Phase,
    joined: nat,
    left: nat,
    attempts: seq<Attempt>,
    stream: seq<byte>)
  {
    predicate Open() { !phase.Closed? }
    predicate InList() { phase.Listed? || phase.Reading? || phase.Holding? || phase.Sending? || phase.Ending? }
    predicate Left() { phase.Removed? || phase.Closed? }
  }

  datatype Mutex = Free | Held(holder: nat, next: nat)

  /** `setup` is the connection the accept loop is busy with; `log` is the history of broadcasts. */
  datatype State = State(
    clients: seq<int>,
    mutex: Mutex,
    setup: Option<nat>,
    conns: seq<Conn>,
    log: seq<Entry>)

  const INIT := State([], Free, None, [], [])

  datatype Event =
    | Accept(fd: int)
    | Register
    | StartThread
    | Receive(c: nat, chunk: seq<byte>)
    | LockForBroadcast(c: nat)
    | SendNext(c: nat, ok: bool)
    | Unlock(c: nat)
    | Finish(c: nat)
    | Remove(c: nat)
    | Close(c: nat)

  // ---------------------------------------------------------------- the steps

  function RemoveAll(clients: seq<int>, fd: int): seq<int> {
    if clients == [] then [] else
      RemoveAll(clients[..|clients| - 1], fd)
      + (if clients[|clients| - 1] == fd then [] else [clients[|clients| - 1]])
  }

  function WithPhase(s: State, c: nat, phase: Phase): State
    requires c < |s.conns|
  {
    s.(conns := s.conns[c := s.conns[c].(phase := phase)])
  }

  /** The kernel hands the data to whichever connection has the descriptor open. */
  function Deliver(conns: seq<Conn>, fd: int, attempt: Attempt): (r: seq<Conn>)
    ensures |r| == |conns|
    ensures forall t :: 0 <= t < |r| ==> r[t] == Offer(conns[t], fd, attempt)
  {
    seq(|conns|, t requires 0 <= t < |conns| => Offer(conns[t], fd, attempt))
  }

  function Offer(conn: Conn, fd: int, attempt: Attempt): Conn {
    if conn.Open() && conn.fd == fd then conn.(attempts := conn.attempts + [attempt]) else conn
  }

  ghost predicate FdInUse(s: State, fd: int) {
    exists t :: 0 <= t < |s.conns| && s.conns[t].Open() && s.conns[t].fd == fd
  }

  ghost predicate InPhase(s: State, c: nat, phase: Phase) {
    c < |s.conns| && s.conns[c].phase == phase
  }

  ghost predicate Accepts(s: State, fd: int, s': State) {
    && s.setup.None? && !FdInUse(s, fd)
    && s' == s.(setup := Some(|s.conns|), conns := s.conns + [Conn(fd, Accepted, 0, 0, [], [])])
  }

  ghost predicate Registers(s: State, s': State) {
    && s.setup.Some? && InPhase(s, s.setup.value, Accepted) && s.mutex.Free?
    && var c := s.setup.value;
       s' == s.(clients := s.clients + [s.conns[c].fd],
                conns := s.conns[c := s.conns[c].(phase := Listed, joined := |s.log|)])
  }

  ghost predicate StartsThread(s: State, s': State) {
    && s.setup.Some? && InPhase(s, s.setup.value, Listed)
    && s' == WithPhase(s, s.setup.value, Reading).(setup := None)
  }

  ghost predicate ReceivesChunk(s: State, c: nat, chunk: seq<byte>, s': State) {
    && InPhase(s, c, Reading) && 0 < |chunk| <= BUFFER_SIZE
    && s' == s.(conns := s.conns[c := s.conns[c].(phase := Holding(chunk), stream := s.conns[c].stream + chunk)])
  }

  ghost predicate Locks(s: State, c: nat, s': State) {
    && c < |s.conns| && s.conns[c].phase.Holding? && s.mutex.Free?
    && s' == WithPhase(s, c, Sending).(
               mutex := Held(c, 0),
               log := s.log + [Entry(|s.log|, c, s.conns[c].phase.chunk)])
  }

  ghost predicate Sends(s: State, c: nat, ok: bool, s': State) {
    && InPhase(s, c, Sending) && s.mutex.Held? && s.mutex.holder == c && s.mutex.next < |s.clients| && s.log != []
    && var fd := s.clients[s.mutex.next];
       s' == s.(mutex := Held(c, s.mutex.next + 1),
                conns := if fd == s.conns[c].fd then s.conns
                         else Deliver(s.conns, fd, Attempt(s.log[|s.log| - 1], ok)))
  }

  ghost predicate Unlocks(s: State, c: nat, s': State) {
    InPhase(s, c, Sending) && s.mutex == Held(c, |s.clients|) && s' == WithPhase(s, c, Reading).(mutex := Free)
  }

  ghost predicate Removes(s: State, c: nat, s': State) {
    && InPhase(s, c, Ending) && s.mutex.Free?
    && s' == s.(clients := RemoveAll(s.clients, s.conns[c].fd),
                conns := s.conns[c := s.conns[c].(phase := Removed, left := |s.log|)])
  }

  ghost predicate Next(s: State, e: Event, s': State) {
    match e
    case Accept(fd) => Accepts(s, fd, s')
    case Register => Registers(s, s')
    case StartThread => StartsThread(s, s')
    case Receive(c, chunk) => ReceivesChunk(s, c, chunk, s')
    case LockForBroadcast(c) => Locks(s, c, s')
    case SendNext(c, ok) => Sends(s, c, ok, s')
    case Unlock(c) => Unlocks(s, c, s')
    case Finish(c) => InPhase(s, c, Reading) && s' == WithPhase(s, c, Ending)
    case Remove(c) => Removes(s, c, s')
    case Close(c) => InPhase(s, c, Removed) && s' == WithPhase(s, c, Closed)
  }

  ghost predicate IsRun(trace: seq<State>, es: seq<Event>) {
    && |trace| == |es| + 1
    && forall n :: 0 <= n < |es| ==> Next(trace[n], es[n], trace[n + 1])
  }

  ghost predicate Runs(s: State, es: seq<Event>, t: State) {
    exists trace :: IsRun(trace, es) && trace[0] == s && trace[|es|] == t
  }

  ghost predicate Reachable(t: State) {
    exists es :: Runs(INIT, es, t)
  }

  lemma RunsNowhere(s: State)
    ensures Runs(s, [], s)
  {
    assert IsRun([s], []);
  }

  lemma RunsExtend(s: State, es: seq<Event>, m: State, e: Event, t: State)
    requires Runs(s, es, m) && Next(m, e, t)
    ensures Runs(s, es + [e], t)
  {
    var trace :| IsRun(trace, es) && trace[0] == s && trace[|es|] == m;
    assert IsRun(trace + [t], es + [e]);
  }

  lemma ReachableStep(s: State, e: Event, s': State)
    requires Reachable(s) && Next(s, e, s')
    ensures Reachable(s')
  {
    var es :| Runs(INIT, es, s);
    RunsExtend(INIT, es, s, e, s');
  }

  // ---------------------------------------------------------------- projections of the log

  /** The entries that did not come from connection `c`. */
  function Others(log: seq<Entry>, c: nat): seq<Entry> {
    if log == [] then [] else
      Others(log[..|log| - 1], c) + (if log[|log| - 1].from == c then [] else [log[|log| - 1]])
  }

  /** The data of the entries that came from connection `d`, joined. */
  function DataFrom(log: seq<Entry>, d: nat): seq<byte> {
    if log == [] then [] else
      DataFrom(log[..|log| - 1], d) + (if log[|log| - 1].from == d then log[|log| - 1].data else [])
  }

  function Entries(attempts: seq<Attempt>): seq<Entry> {
    seq(|attempts|, k requires 0 <= k < |attempts| => attempts[k].entry)
  }

  /** What the connection received: the sends that did not fail. */
  function Received(attempts: seq<Attempt>): seq<Entry> {
    if attempts == [] then [] else
      Received(attempts[..|attempts| - 1])
      + (if attempts[|attempts| - 1].ok then [attempts[|attempts| - 1].entry] else [])
  }

  // ---------------------------------------------------------------- the invariant

  /** Open connections have different descriptors, and the list holds exactly those of the connections in it. */
  ghost predicate DescriptorInvariant(s: State) {
    && Distinct(s.clients)
    && (forall t, u :: 0 <= t < u < |s.conns| && s.conns[t].Open() && s.conns[u].Open() ==>
          s.conns[t].fd != s.conns[u].fd)
    && (forall t :: 0 <= t < |s.conns| && s.conns[t].InList() ==> s.conns[t].fd in s.clients)
    && (forall fd :: fd in s.clients ==> HasListed(s, fd))
  }

  ghost predicate HasListed(s: State, fd: int) {
    exists t :: 0 <= t < |s.conns| && s.conns[t].InList() && s.conns[t].fd == fd
  }

  ghost predicate ThreadInvariant(s: State) {
    && (forall t :: 0 <= t < |s.conns| ==> (s.conns[t].phase.Sending? <==> s.mutex.Held? && s.mutex.holder == t))
    && (forall t :: 0 <= t < |s.conns| ==>
          (s.conns[t].phase.Accepted? || s.conns[t].phase.Listed? <==> s.setup == Some(t)))
    && (s.mutex.Held? ==>
          && s.mutex.holder < |s.conns| && s.mutex.next <= |s.clients|
          && s.log != [] && s.log[|s.log| - 1].from == s.mutex.holder)
  }

  ghost predicate LogInvariant(s: State) {
    forall k :: 0 <= k < |s.log| ==> s.log[k].id == k && s.log[k].from < |s.conns|
  }

  /** The part of the log that a connection has been offered ends where it was removed; before that, one entry
      short of the log while a broadcast has not reached it yet. */
  ghost function OfferedUpTo(clients: seq<int>, mutex: Mutex, logLength: nat, conn: Conn): int {
    if conn.Left() then conn.left
    else if mutex.Held? && mutex.next <= |clients| && conn.fd !in clients[..mutex.next] then logLength - 1
    else logLength
  }

  ghost predicate OfferInvariant(clients: seq<int>, mutex: Mutex, log: seq<Entry>, c: nat, conn: Conn) {
    if conn.phase.Accepted? then conn.attempts == []
    else
      var end := OfferedUpTo(clients, mutex, |log|, conn);
      && conn.joined <= end <= |log|
      && Entries(conn.attempts) == Others(log[conn.joined..end], c)
  }

  ghost predicate StreamInvariant(log: seq<Entry>, c: nat, conn: Conn) {
    conn.stream == DataFrom(log, c) + if conn.phase.Holding? then conn.phase.chunk else []
  }

  ghost predicate OfferAt(s: State, t: nat)
    requires t < |s.conns|
  {
    OfferInvariant(s.clients, s.mutex, s.log, t, s.conns[t]) && StreamInvariant(s.log, t, s.conns[t])
  }

  ghost predicate Invariant(s: State) {
    && DescriptorInvariant(s)
    && ThreadInvariant(s)
    && LogInvariant(s)
    && forall t :: 0 <= t < |s.conns| ==> OfferAt(s, t)
  }

  // ---------------------------------------------------------------- every step keeps the invariant

  lemma {:induction false} RemoveAllContents(clients: seq<int>, fd: int)
    ensures forall x :: x in RemoveAll(clients, fd) <==> x in clients && x != fd
    ensures Distinct(clients) ==> Distinct(RemoveAll(clients, fd))
  {
    if clients != [] {
      var front, last := clients[..|clients| - 1], clients[|clients| - 1];
      RemoveAllContents(front, fd);
      assert clients == front + [last];
      if Distinct(clients) {
        assert Distinct(front) && last !in front;
      }
    }
  }

  lemma {:induction false} RemoveAbsent(clients: seq<int>, fd: int)
    requires fd !in clients
    ensures RemoveAll(clients, fd) == clients
  {
    if clients != [] {
      var n := |clients| - 1;
      RemoveAbsent(clients[..n], fd);
      assert clients == clients[..n] + [clients[n]];
    }
  }

  /** Erasing a descriptor from a list without duplicates closes the gap and changes nothing else. */
  lemma {:induction false} RemoveIsSlices(clients: seq<int>, k: nat)
    requires Distinct(clients) && k < |clients|
    ensures RemoveAll(clients, clients[k]) == clients[..k] + clients[k + 1..]
  {
    var n := |clients| - 1;
    var front := clients[..n];
    if k < n {
      RemoveIsSlices(front, k);
      assert front[..k] == clients[..k] && front[k + 1..] + [clients[n]] == clients[k + 1..];
    } else {
      RemoveAbsent(front, clients[n]);
    }
  }

  lemma DescriptorStep(s: State, e: Event, s': State)
    requires DescriptorInvariant(s) && Next(s, e, s')
    ensures DescriptorInvariant(s')
  {
    hide DescriptorInvariant;
    match e
    case Accept(fd) => DescriptorAccept(s, fd, s');
    case Register => DescriptorRegister(s, s');
    case SendNext(c, ok) => DescriptorSend(s, c, ok, s');
    case Remove(c) => DescriptorRemove(s, c, s');
    case _ => DescriptorsSame(s, s');
  }

  lemma DescriptorSend(s: State, c: nat, ok: bool, s': State)
    requires DescriptorInvariant(s) && Sends(s, c, ok, s')
    ensures DescriptorInvariant(s')
  {
    hide DescriptorInvariant;
    DescriptorsSame(s, s');
  }

  lemma DescriptorsSame(s: State, s': State)
    requires DescriptorInvariant(s) && s'.clients == s.clients && |s'.conns| == |s.conns|
    requires forall t :: 0 <= t < |s.conns| ==>
      && s'.conns[t].fd == s.conns[t].fd
      && (s'.conns[t].Open() ==> s.conns[t].Open())
      && (s'.conns[t].InList() <==> s.conns[t].InList())
    ensures DescriptorInvariant(s')
  {
    forall x | x in s'.clients ensures HasListed(s', x) {
      KeepsListed(s, s', x);
    }
  }

  lemma KeepsListed(s: State, s': State, fd: int)
    requires HasListed(s, fd) && |s.conns| <= |s'.conns|
    requires forall t :: 0 <= t < |s.conns| && s.conns[t].InList() && s.conns[t].fd == fd ==>
      s'.conns[t].InList() && s'.conns[t].fd == fd
    ensures HasListed(s', fd)
  {
    var t :| 0 <= t < |s.conns| && s.conns[t].InList() && s.conns[t].fd == fd;
    assert s'.conns[t].InList();
  }

  lemma DescriptorAccept(s: State, fd: int, s': State)
    requires DescriptorInvariant(s) && Accepts(s, fd, s')
    ensures DescriptorInvariant(s')
  {
    forall x | x in s'.clients ensures HasListed(s', x) {
      KeepsListed(s, s', x);
    }
  }

  lemma DescriptorRegister(s: State, s': State)
    requires DescriptorInvariant(s) && Registers(s, s')
    ensures DescriptorInvariant(s')
  {
    var c := s.setup.value;
    var fd := s.conns[c].fd;
    if fd in s.clients {
      NotTheTarget(s, fd, c);
    }
    forall x | x in s'.clients ensures HasListed(s', x) {
      if x == fd {
        assert s'.conns[c].InList();
      } else {
        KeepsListed(s, s', x);
      }
    }
  }

  lemma DescriptorRemove(s: State, c: nat, s': State)
    requires DescriptorInvariant(s) && Removes(s, c, s')
    ensures DescriptorInvariant(s')
  {
    RemoveAllContents(s.clients, s.conns[c].fd);
    forall x | x in s'.clients ensures HasListed(s', x) {
      KeepsListed(s, s', x);
    }
  }

  lemma ThreadStep(s: State, e: Event, s': State)
    requires ThreadInvariant(s) && LogInvariant(s) && Next(s, e, s')
    ensures ThreadInvariant(s') && LogInvariant(s')
  {
    hide ThreadInvariant, LogInvariant;
    match e
    case Accept(fd) => ThreadAccept(s, fd, s');
    case Register => ThreadRegister(s, s');
    case LockForBroadcast(c) => ThreadLock(s, c, s');
    case SendNext(c, ok) => ThreadSend(s, c, ok, s');
    case Remove(c) => ThreadRemove(s, c, s');
    case Unlock(c) => ThreadPhase(s, e, s');
    case StartThread => ThreadPhase(s, e, s');
    case Receive(c, chunk) => ThreadPhase(s, e, s');
    case Finish(c) => ThreadPhase(s, e, s');
    case Close(c) => ThreadPhase(s, e, s');
  }

  lemma ThreadPhase(s: State, e: Event, s': State)
    requires ThreadInvariant(s) && LogInvariant(s) && Next(s, e, s')
    requires e.Unlock? || e.StartThread? || e.Receive? || e.Finish? || e.Close?
    ensures ThreadInvariant(s') && LogInvariant(s')
  {
  }

  lemma ThreadAccept(s: State, fd: int, s': State)
    requires ThreadInvariant(s) && LogInvariant(s) && Accepts(s, fd, s')
    ensures ThreadInvariant(s') && LogInvariant(s')
  {
  }

  lemma ThreadRegister(s: State, s': State)
    requires ThreadInvariant(s) && LogInvariant(s) && Registers(s, s')
    ensures ThreadInvariant(s') && LogInvariant(s')
  {
  }

  lemma ThreadLock(s: State, c: nat, s': State)
    requires ThreadInvariant(s) && LogInvariant(s) && Locks(s, c, s')
    ensures ThreadInvariant(s') && LogInvariant(s')
  {
  }

  lemma ThreadSend(s: State, c: nat, ok: bool, s': State)
    requires ThreadInvariant(s) && LogInvariant(s) && Sends(s, c, ok, s')
    ensures ThreadInvariant(s') && LogInvariant(s')
  {
    assert |s'.conns| == |s.conns|;
    assert forall t :: 0 <= t < |s.conns| ==> s'.conns[t].phase == s.conns[t].phase;
  }

  lemma ThreadRemove(s: State, c: nat, s': State)
    requires ThreadInvariant(s) && LogInvariant(s) && Removes(s, c, s')
    ensures ThreadInvariant(s') && LogInvariant(s')
  {
  }

  lemma SliceExtends(log: seq<Entry>, e: Entry, from: nat, c: nat)
    requires from <= |log|
    ensures Others((log + [e])[from..], c) == Others(log[from..], c) + if e.from == c then [] else [e]
    ensures forall end :: from <= end <= |log| ==> (log + [e])[from..end] == log[from..end]
  {
    assert (log + [e])[from..] == log[from..] + [e];
    assert (log[from..] + [e])[..|log[from..]|] == log[from..];
  }

  lemma DataExtends(log: seq<Entry>, e: Entry, d: nat)
    ensures DataFrom(log + [e], d) == DataFrom(log, d) + if e.from == d then e.data else []
  {
    assert (log + [e])[..|log|] == log;
  }

  lemma {:induction false} NoDataYet(log: seq<Entry>, d: nat)
    requires forall k :: 0 <= k < |log| ==> log[k].from < d
    ensures DataFrom(log, d) == []
  {
    if log != [] {
      NoDataYet(log[..|log| - 1], d);
    }
  }

  /** A connection in the list is offered the whole log once the mutex is free. */
  lemma OfferedAll(clients: seq<int>, logLength: nat, conn: Conn)
    requires conn.InList() ==> conn.fd in clients
    ensures !conn.Left() ==> OfferedUpTo(clients, Free, logLength, conn) == logLength
    ensures conn.InList() ==> forall h :: OfferedUpTo(clients, Held(h, |clients|), logLength, conn) == logLength
  {
    assert clients[..|clients|] == clients;
  }

  lemma OfferStep(s: State, e: Event, s': State, t: nat)
    requires Invariant(s) && Next(s, e, s') && t < |s'.conns|
    ensures OfferAt(s', t)
  {
    hide Invariant, OfferAt;
    match e
    case Accept(fd) => AcceptOffer(s, fd, s', t);
    case Register => RegisterOffer(s, s', t);
    case LockForBroadcast(c) => OfferNow(s, t); LockOffer(s, c, s', t);
    case SendNext(c, ok) => OfferNow(s, t); SendOffer(s, c, ok, s', t);
    case Unlock(c) => UnlockOffer(s, c, s', t);
    case Remove(c) => RemoveOffer(s, c, s', t);
    case StartThread => OfferNow(s, t); OfferUnchanged(s, s', t);
    case Receive(c, chunk) => OfferNow(s, t); ReceiveOffer(s, c, chunk, s', t);
    case Finish(c) => OfferNow(s, t); OfferUnchanged(s, s', t);
    case Close(c) => OfferNow(s, t); OfferUnchanged(s, s', t);
  }

  lemma OfferNow(s: State, t: nat)
    requires Invariant(s) && t < |s.conns|
    ensures DescriptorInvariant(s) && ThreadInvariant(s) && OfferAt(s, t)
  {
  }

  lemma ReceiveOffer(s: State, c: nat, chunk: seq<byte>, s': State, t: nat)
    requires t < |s.conns| && OfferAt(s, t) && ReceivesChunk(s, c, chunk, s')
    ensures OfferAt(s', t)
  {
  }

  lemma RegisterOffer(s: State, s': State, t: nat)
    requires Invariant(s) && Registers(s, s') && t < |s.conns|
    ensures OfferAt(s', t)
  {
    OfferNow(s, t);
    ListOffer(s, s', t);
  }

  lemma UnlockOffer(s: State, c: nat, s': State, t: nat)
    requires Invariant(s) && Unlocks(s, c, s') && t < |s.conns|
    ensures OfferAt(s', t)
  {
    OfferNow(s, t);
    ListOffer(s, s', t);
  }

  lemma RemoveOffer(s: State, c: nat, s': State, t: nat)
    requires Invariant(s) && Removes(s, c, s') && t < |s.conns|
    ensures OfferAt(s', t)
  {
    OfferNow(s, t);
    ListOffer(s, s', t);
  }

  lemma OfferUnchanged(s: State, s': State, t: nat)
    requires t < |s.conns| == |s'.conns| && OfferAt(s, t)
    requires s'.clients == s.clients && s'.mutex == s.mutex && s'.log == s.log
    requires s'.conns[t].(phase := s.conns[t].phase) == s.conns[t]
    requires s'.conns[t].phase.Accepted? <==> s.conns[t].phase.Accepted?
    requires s'.conns[t].Left() <==> s.conns[t].Left()
    requires s'.conns[t].phase == s.conns[t].phase || (!s.conns[t].phase.Holding? && !s'.conns[t].phase.Holding?)
    ensures OfferAt(s', t)
  {
  }

  lemma AcceptOffer(s: State, fd: int, s': State, t: nat)
    requires Invariant(s) && Accepts(s, fd, s') && t < |s'.conns|
    ensures OfferAt(s', t)
  {
    if t < |s.conns| {
      assert OfferAt(s, t);
    } else {
      NoDataYet(s.log, t);
    }
  }

  /** Steps that change the list or release the mutex, with no broadcast under way after them. */
  lemma ListOffer(s: State, s': State, t: nat)
    requires t < |s.conns| == |s'.conns| && OfferAt(s, t)
    requires s.mutex.Held? ==> s.mutex.next == |s.clients|
    requires s.conns[t].InList() ==> s.conns[t].fd in s.clients
    requires s'.mutex.Free? && s'.log == s.log
    requires StreamInvariant(s'.log, t, s'.conns[t])
    requires s'.conns[t].attempts == s.conns[t].attempts && s'.conns[t].fd == s.conns[t].fd
    requires s.conns[t].phase.Accepted? && !s'.conns[t].phase.Accepted? ==>
      s'.conns[t].phase.Listed? && s'.conns[t].joined == |s.log|
    requires !s.conns[t].phase.Accepted? ==> !s'.conns[t].phase.Accepted? && s'.conns[t].joined == s.conns[t].joined
    requires s.conns[t].Left() ==> s'.conns[t].left == s.conns[t].left && s'.conns[t].Left()
    requires !s.conns[t].Left() && s'.conns[t].Left() ==> s'.conns[t].left == |s.log|
    ensures OfferAt(s', t)
  {
    assert s.log[|s.log|..|s.log|] == [];
    OfferedAll(s.clients, |s.log|, s.conns[t]);
  }

  lemma LockOffer(s: State, c: nat, s': State, t: nat)
    requires t < |s.conns| && OfferAt(s, t) && Locks(s, c, s')
    ensures OfferAt(s', t)
  {
    var conn := s.conns[t];
    assert OfferAt(s, t);
    DataExtends(s.log, Entry(|s.log|, c, s.conns[c].phase.chunk), t);
    if !conn.phase.Accepted? {
      SliceExtends(s.log, Entry(|s.log|, c, s.conns[c].phase.chunk), conn.joined, t);
      assert OfferedUpTo(s'.clients, s'.mutex, |s'.log|, s'.conns[t])
        == OfferedUpTo(s.clients, s.mutex, |s.log|, conn);
    }
  }

  lemma SendOffer(s: State, c: nat, ok: bool, s': State, t: nat)
    requires DescriptorInvariant(s) && ThreadInvariant(s) && Sends(s, c, ok, s') && t < |s.conns| && OfferAt(s, t)
    ensures OfferAt(s', t)
  {
    hide OfferInvariant, Deliver, HasListed;
    var n, conn := s.mutex.next, s.conns[t];
    SendReaches(s, c, ok, s', t);
    if conn.InList() && conn.fd == s.clients[n] {
      FirstOccurrence(s.clients, n);
      TargetOffer(s.clients, c, n, s.log, ok, t, conn);
      assert OfferInvariant(s.clients, Held(c, n + 1), s.log, t, s'.conns[t]);
    } else {
      NotTheTarget(s, s.clients[n], t);
      BystanderOffer(s.clients, c, n, s.log, t, conn);
      assert s'.conns[t] == conn;
    }
  }

  lemma FirstOccurrence(clients: seq<int>, n: nat)
    requires Distinct(clients) && n < |clients|
    ensures clients[n] !in clients[..n] && clients[n] in clients[..n + 1]
  {
    assert clients[..n + 1] == clients[..n] + [clients[n]];
  }

  /** A send reaches the connection in the list under the descriptor, unless it is the sender's own, and no other. */
  lemma SendReaches(s: State, c: nat, ok: bool, s': State, t: nat)
    requires DescriptorInvariant(s) && Sends(s, c, ok, s') && t < |s.conns|
    ensures |s'.conns| == |s.conns|
    ensures s'.conns[t]
      == if t != c && s.conns[t].InList() && s.conns[t].fd == s.clients[s.mutex.next]
         then s.conns[t].(attempts := s.conns[t].attempts + [Attempt(s.log[|s.log| - 1], ok)])
         else s.conns[t]
  {
    if !(s.conns[t].InList() && s.conns[t].fd == s.clients[s.mutex.next]) {
      NotTheTarget(s, s.clients[s.mutex.next], t);
    }
  }

  lemma BystanderOffer(clients: seq<int>, holder: nat, n: nat, log: seq<Entry>, t: nat, conn: Conn)
    requires n < |clients| && !(conn.Open() && conn.fd == clients[n])
    requires OfferInvariant(clients, Held(holder, n), log, t, conn)
    ensures OfferInvariant(clients, Held(holder, n + 1), log, t, conn)
  {
    assert clients[..n + 1] == clients[..n] + [clients[n]];
  }

  lemma TargetOffer(clients: seq<int>, holder: nat, n: nat, log: seq<Entry>, ok: bool, t: nat, conn: Conn)
    requires log != [] && log[|log| - 1].from == holder && n < |clients|
    requires conn.InList() && conn.fd !in clients[..n] && conn.fd in clients[..n + 1]
    requires OfferInvariant(clients, Held(holder, n), log, t, conn)
    ensures t == holder ==> OfferInvariant(clients, Held(holder, n + 1), log, t, conn)
    ensures t != holder ==> OfferInvariant(clients, Held(holder, n + 1), log, t,
                              conn.(attempts := conn.attempts + [Attempt(log[|log| - 1], ok)]))
  {
    var front, last := log[..|log| - 1], log[|log| - 1];
    assert log == front + [last];
    assert log[conn.joined..|front|] == front[conn.joined..];
    SliceExtends(front, last, conn.joined, t);
    assert log[conn.joined..|log|] == log[conn.joined..];
    assert Entries(conn.attempts + [Attempt(last, ok)]) == Entries(conn.attempts) + [last];
  }

  /** A descriptor in the list is open for the connection in the list alone: not for one that was accepted since,
      nor for one that has left. */
  lemma NotTheTarget(s: State, fd: int, t: nat)
    requires DescriptorInvariant(s) && fd in s.clients && t < |s.conns|
    requires !(s.conns[t].InList() && s.conns[t].fd == fd)
    ensures !(s.conns[t].Open() && s.conns[t].fd == fd)
  {
    assert HasListed(s, fd);
    var u :| 0 <= u < |s.conns| && s.conns[u].InList() && s.conns[u].fd == fd;
  }

  lemma InvariantStep(s: State, e: Event, s': State)
    requires Invariant(s) && Next(s, e, s')
    ensures Invariant(s')
  {
    hide DescriptorInvariant, ThreadInvariant, LogInvariant, Next;
    DescriptorStep(s, e, s');
    ThreadStep(s, e, s');
    forall t | 0 <= t < |s'.conns| ensures OfferAt(s', t) {
      OfferStep(s, e, s', t);
    }
  }

  lemma {:induction false} InvariantHolds(trace: seq<State>, es: seq<Event>, n: nat)
    requires IsRun(trace, es) && trace[0] == INIT && n <= |es|
    ensures Invariant(trace[n])
  {
    if n > 0 {
      InvariantHolds(trace, es, n - 1);
      InvariantStep(trace[n - 1], es[n - 1], trace[n]);
    }
  }

  lemma ReachableInvariant(s: State)
    requires Reachable(s)
    ensures Invariant(s)
  {
    var es :| Runs(INIT, es, s);
    var trace :| IsRun(trace, es) && trace[0] == INIT && trace[|es|] == s;
    InvariantHolds(trace, es, |es|);
  }
}

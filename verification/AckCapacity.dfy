/** The acknowledgement protocol over a connection that holds only so many bytes in each direction. A send hands its
    bytes over at once in module AckProtocol; here it returns only when what is under way fits the connection, and only
    bytes inside the connection can be read. Each program is either in a send or in a recv, so that with both in a send
    nobody reads. This module says when that happens. */
module AckCapacity {
  import opened Basics
  import opened AckProtocol

  type positive = n: nat | n > 0 witness 1

  /** How many bytes each direction holds outside the two programs: the buffers of both ends. */
  datatype Capacity = Capacity(toServer: positive, toClient: positive)

  /** The client's send has not returned: part of the packet is still in the client. */
  predicate ClientBlocked(b: Capacity, s: State) {
    |s.toServer| > b.toServer
  }

  predicate ServerBlocked(b: Capacity, s: State) {
    |s.toClient| > b.toClient
  }

  /** A recv comes after the send before it has returned, and finds only what is inside the connection. */
  ghost predicate NextWithin(b: Capacity, s: State, e: Event, s': State) {
    && Next(s, e, s')
    && (e.ServerRead? ==> !ServerBlocked(b, s) && e.n <= b.toServer)
    && (e.ClientRead? ==> !ClientBlocked(b, s) && e.n <= b.toClient)
  }

  ghost predicate IsRunWithin(b: Capacity, trace: seq<State>, es: seq<Event>) {
    && |trace| == |es| + 1
    && forall n :: 0 <= n < |es| ==> NextWithin(b, trace[n], es[n], trace[n + 1])
  }

  ghost predicate ReachableWithin(b: Capacity, t: State) {
    exists trace, es :: IsRunWithin(b, trace, es) && Init(trace[0]) && trace[|es|] == t
  }

  ghost predicate Stuck(b: Capacity, s: State) {
    forall e, s' :: !NextWithin(b, s, e, s')
  }

  /** Both programs are in a send that cannot return. */
  predicate BothBlocked(b: Capacity, s: State) {
    s.client.Waiting? && s.server.Reading? && ClientBlocked(b, s) && ServerBlocked(b, s)
  }

  // ---------------------------------------------------------------- runs within a capacity

  /** Every theorem about reachable states holds here too. */
  lemma WithinIsReachable(b: Capacity, s: State)
    requires ReachableWithin(b, s)
    ensures Reachable(s)
  {
    var trace, es :| IsRunWithin(b, trace, es) && Init(trace[0]) && trace[|es|] == s;
    forall n | 0 <= n < |es| ensures Next(trace[n], es[n], trace[n + 1]) {
      assert NextWithin(b, trace[n], es[n], trace[n + 1]);
    }
    assert IsRun(trace, es);
  }

  lemma OneMore(b: Capacity, trace: seq<State>, es: seq<Event>, e: Event, s': State)
    requires IsRunWithin(b, trace, es) && NextWithin(b, trace[|es|], e, s')
    ensures IsRunWithin(b, trace + [s'], es + [e])
  {
    hide NextWithin;
    var longer, events := trace + [s'], es + [e];
    forall n | 0 <= n < |events| ensures NextWithin(b, longer[n], events[n], longer[n + 1]) {
      if n < |es| {
        assert NextWithin(b, trace[n], es[n], trace[n + 1]);
      }
    }
  }

  lemma Extend(b: Capacity, s: State, e: Event, s': State)
    requires ReachableWithin(b, s) && NextWithin(b, s, e, s')
    ensures ReachableWithin(b, s')
  {
    hide Init, NextWithin;
    var trace, es :| IsRunWithin(b, trace, es) && Init(trace[0]) && trace[|es|] == s;
    OneMore(b, trace, es, e, s');
    assert (trace + [s'])[0] == trace[0] && (trace + [s'])[|es + [e]|] == s';
  }

  /** A connection never holds more than its capacity beside the one send under way. */
  ghost predicate Fits(b: Capacity, s: State) {
    && |s.toServer| <= b.toServer + (if s.client.Waiting? then PACKET else 0)
    && |s.toClient| <= b.toClient + (if s.server.Reading? then STAMP else 0)
  }

  lemma FitsStep(b: Capacity, s: State, e: Event, s': State)
    requires Fits(b, s) && NextWithin(b, s, e, s')
    ensures Fits(b, s')
  {
  }

  lemma {:induction false} FitsHolds(b: Capacity, trace: seq<State>, es: seq<Event>, n: nat)
    requires IsRunWithin(b, trace, es) && Init(trace[0]) && n <= |es|
    ensures Fits(b, trace[n])
  {
    if n > 0 {
      FitsHolds(b, trace, es, n - 1);
      FitsStep(b, trace[n - 1], es[n - 1], trace[n]);
    }
  }

  lemma ReachableFits(b: Capacity, s: State)
    requires ReachableWithin(b, s)
    ensures Fits(b, s)
  {
    var trace, es :| IsRunWithin(b, trace, es) && Init(trace[0]) && trace[|es|] == s;
    FitsHolds(b, trace, es, |es|);
  }

  // ---------------------------------------------------------------- when nothing can happen

  /** A recv can return any number of bytes that are inside the connection, once the program's own send has returned. */
  lemma AnyReadWithin(b: Capacity, s: State, n: nat)
    ensures (exists s' :: NextWithin(b, s, ServerRead(n), s')) <==>
      s.server.Reading? && |s.toClient| <= b.toClient && 1 <= n <= 1024 && n <= |s.toServer| && n <= b.toServer
    ensures (exists s' :: NextWithin(b, s, ClientRead(n), s')) <==>
      s.client.Waiting? && |s.toServer| <= b.toServer && 1 <= n <= 8 && n <= |s.toClient| && n <= b.toClient
  {
    if s.server.Reading? && |s.toClient| <= b.toClient && 1 <= n <= 1024 && n <= |s.toServer| && n <= b.toServer {
      assert NextWithin(b, s, ServerRead(n), Read(s, n));
    }
    if s.client.Waiting? && |s.toServer| <= b.toServer && 1 <= n <= 8 && n <= |s.toClient| && n <= b.toClient {
      assert NextWithin(b, s, ClientRead(n), Got(s, n));
    }
  }

  /** With any capacity, a reachable state has no next step if and only if both programs are in a blocked send. */
  lemma StuckIff(b: Capacity, s: State)
    requires Reachable(s)
    ensures Stuck(b, s) <==> BothBlocked(b, s)
  {
    if !BothBlocked(b, s) {
      var e, s' := SomeStep(b, s);
    }
  }

  predicate SingleByte(e: Event) {
    (e.ServerRead? ==> e.n == 1) && (e.ClientRead? ==> e.n == 1)
  }

  lemma SomeStep(b: Capacity, s: State) returns (e: Event, s': State)
    requires Reachable(s) && !BothBlocked(b, s)
    ensures NextWithin(b, s, e, s') && SingleByte(e)
  {
    ReachableInvariant(s);
    if s.client.Ready? {
      e, s' := ClientSend(0), Sent(s, 0);
    } else if s.server.Acking? {
      e, s' := ServerAck, Answered(s);
    } else if !ServerBlocked(b, s) && s.toServer != [] {
      e, s' := ServerRead(1), Read(s, 1);
    } else {
      NeverDeadlocks(s);
      e, s' := ClientRead(1), Got(s, 1);
    }
  }

  /** What can be under way: every read was of at least one byte, and so was every reply. */
  lemma UnderWay(s: State)
    requires Reachable(s)
    ensures |s.toServer| + |s.chunks| <= PACKET * |s.stamps|
    ensures |s.toClient| + |s.gots| <= STAMP * |s.acks| <= STAMP * |s.chunks|
  {
    ReachableInvariant(s);
    ByteConservation(s);
    FlattenBounds(s.chunks, READ_SIZE);
    FlattenBounds(s.gots, STAMP);
  }

  /** No send ever blocks in a run of `packets` packets over a connection that could hold them all and their acks. */
  lemma RoomForAll(b: Capacity, s: State, packets: nat)
    requires Reachable(s) && |s.stamps| <= packets
    requires PACKET * packets <= b.toServer && STAMP * PACKET * packets <= b.toClient
    ensures !ClientBlocked(b, s) && !ServerBlocked(b, s)
  {
    UnderWay(s);
  }

  /** With whole reads and whole replies one packet and one ack are room enough for a run of any length. */
  lemma RoomForOne(b: Capacity, s: State)
    requires Reachable(s) && WholeReads(s) && PACKET <= b.toServer && STAMP <= b.toClient
    ensures !ClientBlocked(b, s) && !ServerBlocked(b, s)
  {
    StopAndWait(s);
  }

  // ---------------------------------------------------------------- which runs can get stuck

  /** The ack bytes that are or can come to be under way to the client, if the server reads byte by byte. */
  function Load(s: State): nat {
    |s.toClient| + STAMP * |s.toServer| + if s.server.Acking? then STAMP else 0
  }

  /** Each packet adds 8 * 1024 bytes of load, each reply takes at least one. */
  lemma LoadBound(s: State)
    requires Reachable(s)
    ensures Load(s) + |s.gots| <= STAMP * PACKET * |s.stamps|
    ensures |s.stamps| == |s.gots| + if s.client.Waiting? then 1 else 0
  {
    ReachableInvariant(s);
    ByteConservation(s);
    FlattenBounds(s.chunks, READ_SIZE);
    FlattenBounds(s.gots, STAMP);
  }

  const GAIN: nat := STAMP * PACKET - 1

  /** The load that fills both directions and leaves a byte over in each. */
  function Full(b: Capacity): nat {
    b.toClient + 1 + STAMP * (b.toServer + 1)
  }

  /** The server's next step if it reads single bytes: it turns load into ack bytes and keeps its amount. */
  lemma ServerGoesOn(b: Capacity, s: State) returns (s': State)
    requires ReachableWithin(b, s) && (s.server.Acking? || (s.toServer != [] && !ServerBlocked(b, s)))
    ensures ReachableWithin(b, s') && s'.client == s.client && s'.stamps == s.stamps
    ensures Load(s') == Load(s) && ServerWork(s') < ServerWork(s)
  {
    WithinIsReachable(b, s);
    ReachableInvariant(s);
    var e := if s.server.Acking? then ServerAck else ServerRead(1);
    s' := if s.server.Acking? then Answered(s) else Read(s, 1);
    Extend(b, s, e, s');
  }

  /** The server alone, one byte at a time, until there is nothing to read or its send blocks. */
  lemma {:induction false} ServerRunsOn(b: Capacity, s: State) returns (s': State)
    requires ReachableWithin(b, s) && s.client.Waiting?
    ensures ReachableWithin(b, s') && s'.client.Waiting? && s'.server.Reading?
    ensures s'.stamps == s.stamps && Load(s') == Load(s)
    ensures s'.toServer == [] || ServerBlocked(b, s')
    decreases ServerWork(s)
  {
    if s.server.Acking? || (s.toServer != [] && !ServerBlocked(b, s)) {
      s' := ServerGoesOn(b, s);
      s' := ServerRunsOn(b, s');
    } else {
      s' := s;
    }
  }

  /** One byte of a reply, then the next packet, then the server's reads of single bytes. */
  lemma NextRound(b: Capacity, s: State) returns (s': State)
    requires ReachableWithin(b, s) && s.client.Waiting? && s.server.Reading? && !BothBlocked(b, s)
    requires s.toServer == [] || ServerBlocked(b, s)
    ensures ReachableWithin(b, s') && s'.client.Waiting? && s'.server.Reading?
    ensures |s'.stamps| == |s.stamps| + 1 && Load(s') == Load(s) + GAIN
    ensures s'.toServer == [] || ServerBlocked(b, s')
  {
    WithinIsReachable(b, s);
    NeverDeadlocks(s);
    var got := Got(s, 1);
    Extend(b, s, ClientRead(1), got);
    Extend(b, got, ClientSend(0), Sent(got, 0));
    s' := ServerRunsOn(b, Sent(got, 0));
  }

  /** A run of `packets` rounds, unless it got stuck before. */
  lemma {:induction false} Rounds(b: Capacity, packets: nat) returns (s: State)
    requires packets > 0
    ensures ReachableWithin(b, s) && s.client.Waiting? && s.server.Reading? && |s.stamps| <= packets
    ensures BothBlocked(b, s) || Load(s) == GAIN * packets + 1
    ensures s.toServer == [] || ServerBlocked(b, s)
  {
    if packets == 1 {
      var first: seq<byte> := seq(READ_SIZE, _ => 0);
      var start := State(Ready, Reading, [], [], first, 0, 0, first, [], [], [], []);
      assert IsRunWithin(b, [start], []) && [start][0] == start;
      Extend(b, start, ClientSend(0), Sent(start, 0));
      s := ServerRunsOn(b, Sent(start, 0));
    } else {
      s := Rounds(b, packets - 1);
      if !BothBlocked(b, s) {
        s := NextRound(b, s);
      }
    }
  }

  lemma DrainedIsStuck(b: Capacity, s: State)
    requires Fits(b, s) && s.client.Waiting? && s.server.Reading? && Load(s) >= Full(b)
    requires s.toServer == [] || ServerBlocked(b, s)
    ensures BothBlocked(b, s)
  {
  }

  /** The programs can get stuck within a number of packets if and only if those packets bring more load than the
      connection holds: each brings 8191 bytes of it, when TCP hands over single bytes both ways. */
  lemma StuckWithinIff(b: Capacity, packets: nat)
    ensures (exists s :: ReachableWithin(b, s) && Stuck(b, s) && |s.stamps| <= packets) <==>
      Full(b) <= GAIN * packets + 1
  {
    if Full(b) <= GAIN * packets + 1 {
      var s := Rounds(b, packets);
      ReachableFits(b, s);
      if !BothBlocked(b, s) {
        DrainedIsStuck(b, s);
      }
      WithinIsReachable(b, s);
      StuckIff(b, s);
    }
    forall s | ReachableWithin(b, s) && Stuck(b, s) && |s.stamps| <= packets
      ensures Full(b) <= GAIN * packets + 1
    {
      WithinIsReachable(b, s);
      StuckIff(b, s);
      LoadBound(s);
    }
  }

  /** So no capacity rules it out for good. */
  lemma NoCapacityIsEnough(b: Capacity)
    ensures exists s :: ReachableWithin(b, s) && Stuck(b, s)
  {
    StuckWithinIff(b, Full(b));
    var s :| ReachableWithin(b, s) && Stuck(b, s) && |s.stamps| <= Full(b);
  }

  // ---------------------------------------------------------------- every run of single bytes

  /** Every read and every reply is of one byte. */
  ghost predicate SingleBytes(es: seq<Event>) {
    forall n :: 0 <= n < |es| ==> SingleByte(es[n])
  }

  ghost predicate AllOnes(pieces: seq<seq<byte>>) {
    forall k :: 0 <= k < |pieces| ==> |pieces[k]| == 1
  }

  /** Every step is recorded once, and the pieces are of the sizes read. */
  lemma {:induction false} SingleByteState(b: Capacity, trace: seq<State>, es: seq<Event>, n: nat)
    requires IsRunWithin(b, trace, es) && Init(trace[0]) && SingleBytes(es) && n <= |es|
    ensures AllOnes(trace[n].chunks) && AllOnes(trace[n].gots)
    ensures n == |trace[n].stamps| + |trace[n].chunks| + |trace[n].acks| + |trace[n].gots|
  {
    hide NextWithin, SingleByte;
    if n > 0 {
      SingleByteState(b, trace, es, n - 1);
      SingleByteStep(b, trace[n - 1], es[n - 1], trace[n]);
    }
  }

  lemma SingleByteStep(b: Capacity, s: State, e: Event, s': State)
    requires NextWithin(b, s, e, s') && SingleByte(e) && AllOnes(s.chunks) && AllOnes(s.gots)
    ensures AllOnes(s'.chunks) && AllOnes(s'.gots)
    ensures |s'.stamps| + |s'.chunks| + |s'.acks| + |s'.gots| == |s.stamps| + |s.chunks| + |s.acks| + |s.gots| + 1
  {
  }

  /** Read byte by byte, the packets bring their whole load, so that the capacity bounds their number. */
  lemma SingleByteLoad(b: Capacity, s: State)
    requires ReachableWithin(b, s) && AllOnes(s.chunks) && AllOnes(s.gots)
    ensures Load(s) + |s.gots| == STAMP * PACKET * |s.stamps|
    ensures GAIN * |s.stamps| < Full(b) + STAMP * PACKET
    ensures |s.acks| <= |s.chunks| <= PACKET * |s.stamps| && |s.gots| <= |s.stamps|
  {
    hide ReachableWithin, Load, Fits, AllOnes;
    WithinIsReachable(b, s);
    ReachableFits(b, s);
    SingleByteCounts(s);
    LoadFits(b, s);
  }

  lemma SingleByteCounts(s: State)
    requires Reachable(s) && AllOnes(s.chunks) && AllOnes(s.gots)
    ensures Load(s) + |s.gots| == STAMP * PACKET * |s.stamps|
    ensures |s.acks| <= |s.chunks| <= PACKET * |s.stamps| && |s.gots| <= |s.stamps|
  {
    hide Reachable, Flatten, Stream;
    ByteConservation(s);
    LoadBound(s);
    FlattenExact(s.chunks, 1);
    FlattenExact(s.gots, 1);
  }

  lemma LoadFits(b: Capacity, s: State)
    requires Fits(b, s)
    ensures Load(s) < Full(b) + STAMP * PACKET
  {
  }

  /** More steps than any run of single bytes has, GAIN times. */
  function StepBound(b: Capacity): nat {
    (2 * PACKET + 2) * (Full(b) + STAMP * PACKET)
  }

  lemma SingleByteRunsAreFinite(b: Capacity, trace: seq<State>, es: seq<Event>)
    requires IsRunWithin(b, trace, es) && Init(trace[0]) && SingleBytes(es)
    ensures GAIN * |es| <= StepBound(b)
  {
    hide NextWithin, Load, Full, AllOnes;
    var s := trace[|es|];
    assert ReachableWithin(b, s);
    SingleByteState(b, trace, es, |es|);
    SingleByteLoad(b, s);
    assert |es| <= (2 * PACKET + 2) * |s.stamps|;
  }

  /** A run of single bytes that cannot go on byte by byte cannot go on at all. */
  lemma NoSingleByteStepIsStuck(b: Capacity, s: State)
    requires Reachable(s) && forall e, s' :: SingleByte(e) ==> !NextWithin(b, s, e, s')
    ensures Stuck(b, s)
  {
    StuckIff(b, s);
    if !BothBlocked(b, s) {
      var e, s' := SomeStep(b, s);
      assert false;
    }
  }

  /** Every run of single bytes can be continued until it is stuck. */
  lemma {:induction false} SingleByteRunsGetStuck(b: Capacity, trace: seq<State>, es: seq<Event>)
    returns (longer: seq<State>, events: seq<Event>)
    requires IsRunWithin(b, trace, es) && Init(trace[0]) && SingleBytes(es)
    ensures IsRunWithin(b, longer, events) && trace <= longer && es <= events && SingleBytes(events)
    ensures Stuck(b, longer[|events|]) && GAIN * |events| <= StepBound(b)
    decreases StepBound(b) - GAIN * |es|
  {
    hide Init, NextWithin, StepBound, BothBlocked, SingleByte, Stuck;
    var s := trace[|es|];
    SingleByteRunsAreFinite(b, trace, es);
    assert Reachable(s) by {
      assert ReachableWithin(b, s);
      WithinIsReachable(b, s);
    }
    StuckIff(b, s);
    if BothBlocked(b, s) {
      longer, events := trace, es;
    } else {
      var e, s' := SomeStep(b, s);
      OneMore(b, trace, es, e, s');
      SingleByteRunsAreFinite(b, trace + [s'], es + [e]);
      longer, events := SingleByteRunsGetStuck(b, trace + [s'], es + [e]);
    }
  }
}

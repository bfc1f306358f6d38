/** The timestamp/acknowledgement protocol over one TCP connection (TCPMeasure/Basic/ClientBasicTCPM.cpp and
    TCPMeasure/Basic/MeasureTCP.cpp) as a state machine. TCP may cut the bytes in either direction anywhere: each recv
    returns between one byte and the size asked for. No call fails, and no send waits for room: what a connection of
    limited capacity changes is the subject of module AckCapacity. */
module AckProtocol {
  import opened Basics

  const PACKET: nat := 1024
  const READ_SIZE: nat := 1024
  const STAMP: nat := 8
  const PADDING: byte := 65 // 'A'

  // ---------------------------------------------------------------- the eight bytes of a timestamp

  function EncodeLE(u: nat, n: nat): (s: seq<byte>)
    ensures |s| == n
  {
    if n == 0 then [] else [u % 0x100] + EncodeLE(u / 0x100, n - 1)
  }

  function DecodeLE(s: seq<byte>): nat {
    if s == [] then 0 else s[0] + 0x100 * DecodeLE(s[1..])
  }

  function Power256(n: nat): nat {
    if n == 0 then 1 else 0x100 * Power256(n - 1)
  }

  lemma {:induction false} DecodeEncodeLE(u: nat, n: nat)
    requires u < Power256(n)
    ensures DecodeLE(EncodeLE(u, n)) == u
  {
    if n > 0 {
      DecodeEncodeLE(u / 0x100, n - 1);
      assert EncodeLE(u, n)[1..] == EncodeLE(u / 0x100, n - 1);
    }
  }

  /** memcpy of an int64_t, two's complement, least significant byte first. */
  function EncodeStamp(t: int64): seq<byte> {
    EncodeLE(t % TWO_64, STAMP)
  }

  function DecodeStamp(s: seq<byte>): int {
    if DecodeLE(s) < TWO_63 then DecodeLE(s) else DecodeLE(s) - TWO_64
  }

  lemma Power256OfStamp()
    ensures Power256(STAMP) == TWO_64
  {
    assert Power256(2) == 0x1_0000;
    assert Power256(4) == 0x1_0000_0000;
    assert Power256(6) == 0x1_0000_0000_0000;
  }

  lemma StampRoundTrip(t: int64)
    ensures |EncodeStamp(t)| == STAMP && DecodeStamp(EncodeStamp(t)) == t
  {
    Power256OfStamp();
    DecodeEncodeLE(t % TWO_64, STAMP);
  }

  lemma LowByte(b: byte, x: nat)
    ensures (b + 0x100 * x) % 0x100 == b && (b + 0x100 * x) / 0x100 == x
  {
  }

  lemma {:induction false} EncodeDecodeLE(s: seq<byte>)
    ensures EncodeLE(DecodeLE(s), |s|) == s && DecodeLE(s) < Power256(|s|)
  {
    if s != [] {
      EncodeDecodeLE(s[1..]);
      LowByte(s[0], DecodeLE(s[1..]));
      assert s == [s[0]] + s[1..];
    }
  }

  /** Eight bytes decode to a timestamp only if they are its encoding. */
  lemma DecodesIff(s: seq<byte>, t: int64)
    requires |s| == STAMP
    ensures DecodeStamp(s) == t <==> s == EncodeStamp(t)
  {
    StampRoundTrip(t);
    if DecodeStamp(s) == t {
      StampOfBytes(s);
    }
  }

  lemma StampOfBytes(s: seq<byte>)
    requires |s| == STAMP
    ensures DecodeStamp(s) % TWO_64 == DecodeLE(s) && EncodeLE(DecodeLE(s), STAMP) == s
  {
    EncodeDecodeLE(s);
    Power256OfStamp();
  }

  /** Least significant byte first: byte `k` counts 256 to the `k`. */
  lemma {:induction false} ByteOfLE(u: nat, n: nat, k: nat)
    requires k < n
    ensures Power256(k) > 0 && EncodeLE(u, n)[k] == u / Power256(k) % 0x100
  {
    if k > 0 {
      ByteOfLE(u / 0x100, n - 1, k - 1);
      DivideTwice(u, Power256(k - 1));
    }
  }

  lemma DivideTwice(u: nat, p: nat)
    requires p > 0
    ensures 0x100 * p > 0 && u / 0x100 / p == u / (0x100 * p)
  {
    var v, f := u / 0x100, u % 0x100;
    var d, e := v / p, v % p;
    Scaled(d, p);
    assert v == d * p + e && u == 0x100 * v + f;
    assert u == d * (0x100 * p) + (0x100 * e + f);
    QuotientOf(d, 0x100 * p, 0x100 * e + f);
  }

  lemma Scaled(d: nat, p: nat)
    ensures 0x100 * (d * p) == d * (0x100 * p)
  {
  }

  lemma TimesAtMost(a: nat, b: nat, p: nat)
    requires a <= b
    ensures a * p <= b * p
  {
    assert b * p == a * p + (b - a) * p;
  }

  lemma QuotientOf(q: nat, p: nat, r: nat)
    requires r < p
    ensures (q * p + r) / p == q
  {
    var d := (q * p + r) / p;
    assert d * p <= q * p + r < (d + 1) * p;
    if d < q {
      TimesAtMost(d + 1, q, p);
    }
    if d > q {
      TimesAtMost(q + 1, d, p);
    }
  }

  /** The bytes of a packet: the timestamp's eight, of its 64-bit two's complement, and 1016 times `A`. */
  lemma PacketLayout(t: int64)
    ensures |PacketOf(t)| == 1024 && DecodeStamp(PacketOf(t)[..8]) == t
    ensures forall k :: 0 <= k < 8 ==> Power256(k) > 0 && PacketOf(t)[k] == t % TWO_64 / Power256(k) % 0x100
    ensures forall k :: 8 <= k < 1024 ==> PacketOf(t)[k] == 65
  {
    StampRoundTrip(t);
    assert PacketOf(t)[..8] == EncodeStamp(t);
    forall k | 0 <= k < 8
      ensures Power256(k) > 0 && PacketOf(t)[k] == t % TWO_64 / Power256(k) % 0x100
    {
      ByteOfLE(t % TWO_64, 8, k);
    }
  }

  /** A 32-bit signed counter: the one number in range that differs from `x` by a multiple of 2^32. */
  function Wrap32(x: int): (w: int)
    ensures -0x8000_0000 <= w < 0x8000_0000 && (w - x) % 0x1_0000_0000 == 0
  {
    (x + TWO_31) % TWO_32 - TWO_31
  }

  // ---------------------------------------------------------------- the two programs' data

  function PacketOf(t: int64): (p: seq<byte>)
    ensures |p| == PACKET
  {
    EncodeStamp(t) + seq(PACKET - STAMP, _ => PADDING)
  }

  function Stream(stamps: seq<int64>): seq<byte> {
    if stamps == [] then [] else Stream(stamps[..|stamps| - 1]) + PacketOf(stamps[|stamps| - 1])
  }

  function Flatten(chunks: seq<seq<byte>>): seq<byte> {
    if chunks == [] then [] else Flatten(chunks[..|chunks| - 1]) + chunks[|chunks| - 1]
  }

  /** recv overwrites the front of the buffer; the rest keeps what earlier reads left there. */
  function Overwrite(buffer: seq<byte>, chunk: seq<byte>): (r: seq<byte>)
    ensures |chunk| <= |buffer| ==> |r| == |buffer|
  {
    if |chunk| <= |buffer| then chunk + buffer[|chunk|..] else chunk
  }

  function BufferAfter(buffer: seq<byte>, chunks: seq<seq<byte>>): seq<byte> {
    if chunks == [] then buffer
    else Overwrite(BufferAfter(buffer, chunks[..|chunks| - 1]), chunks[|chunks| - 1])
  }

  // ---------------------------------------------------------------- the state machine

  datatype ClientPhase = Ready | Waiting
  datatype ServerPhase = Reading | Acking

  /** The real state is the phases, the bytes under way, the server's buffer and the two counters. The history is the
      buffer's first contents, the timestamps sent, the chunks the server read, the acks it sent and the pieces of
      them the client read. */
  datatype State = State(
    client: ClientPhase,
    server: ServerPhase,
    toServer: seq<byte>,
    toClient: seq<byte>,
    buffer: seq<byte>,
    dataSent: int,
    totalBytes: int,
    first: seq<byte>,
    stamps: seq<int64>,
    chunks: seq<seq<byte>>,
    acks: seq<seq<byte>>,
    gots: seq<seq<byte>>)

  datatype Event = ClientSend(t: int64) | ServerRead(n: nat) | ServerAck | ClientRead(n: nat)

  ghost predicate Init(s: State) {
    && |s.first| == READ_SIZE
    && s == State(Ready, Reading, [], [], s.first, 0, 0, s.first, [], [], [], [])
  }

  ghost predicate Next(s: State, e: Event, s': State) {
    match e
    case ClientSend(t) =>
      && s.client.Ready?
      && s' == s.(client := Waiting, toServer := s.toServer + PacketOf(t), stamps := s.stamps + [t],
                  dataSent := Wrap32(s.dataSent + PACKET))
    case ServerRead(n) =>
      && s.server.Reading? && 1 <= n <= READ_SIZE && n <= |s.toServer|
      && s' == s.(server := Acking, toServer := s.toServer[n..], chunks := s.chunks + [s.toServer[..n]],
                  buffer := Overwrite(s.buffer, s.toServer[..n]))
    case ServerAck =>
      && s.server.Acking? && |s.buffer| >= STAMP && s.chunks != []
      && s' == s.(server := Reading, toClient := s.toClient + s.buffer[..STAMP], acks := s.acks + [s.buffer[..STAMP]],
                  totalBytes := Wrap32(s.totalBytes + |s.chunks[|s.chunks| - 1]|))
    case ClientRead(n) =>
      && s.client.Waiting? && 1 <= n <= STAMP && n <= |s.toClient|
      && s' == s.(client := Ready, toClient := s.toClient[n..], gots := s.gots + [s.toClient[..n]])
  }

  function Sent(s: State, t: int64): State {
    s.(client := Waiting, toServer := s.toServer + PacketOf(t), stamps := s.stamps + [t],
      dataSent := Wrap32(s.dataSent + PACKET))
  }

  function Read(s: State, n: nat): State
    requires n <= |s.toServer|
  {
    s.(server := Acking, toServer := s.toServer[n..], chunks := s.chunks + [s.toServer[..n]],
      buffer := Overwrite(s.buffer, s.toServer[..n]))
  }

  function Answered(s: State): State
    requires |s.buffer| >= STAMP && s.chunks != []
  {
    s.(server := Reading, toClient := s.toClient + s.buffer[..STAMP], acks := s.acks + [s.buffer[..STAMP]],
      totalBytes := Wrap32(s.totalBytes + |s.chunks[|s.chunks| - 1]|))
  }

  function Got(s: State, n: nat): State
    requires n <= |s.toClient|
  {
    s.(client := Ready, toClient := s.toClient[n..], gots := s.gots + [s.toClient[..n]])
  }

  ghost predicate IsRun(trace: seq<State>, es: seq<Event>) {
    && |trace| == |es| + 1
    && forall n :: 0 <= n < |es| ==> Next(trace[n], es[n], trace[n + 1])
  }

  ghost predicate Reachable(t: State) {
    exists trace, es :: IsRun(trace, es) && Init(trace[0]) && trace[|es|] == t
  }

  lemma ReachableStep(s: State, e: Event, s': State)
    requires Reachable(s) && Next(s, e, s')
    ensures Reachable(s')
  {
    hide Init, Next;
    var trace, es :| IsRun(trace, es) && Init(trace[0]) && trace[|es|] == s;
    var longer, events := trace + [s'], es + [e];
    assert IsRun(longer, events) && longer[0] == trace[0] && longer[|events|] == s';
  }

  lemma InitReachable(s: State)
    requires Init(s)
    ensures Reachable(s)
  {
    assert IsRun([s], []) && [s][0] == s;
  }

  // ---------------------------------------------------------------- the invariant

  /** The chunks already acknowledged. */
  function Acked(s: State): seq<seq<byte>> {
    if s.server.Acking? && s.chunks != [] then s.chunks[..|s.chunks| - 1] else s.chunks
  }

  ghost predicate Sizes(pieces: seq<seq<byte>>, limit: nat) {
    forall k :: 0 <= k < |pieces| ==> 1 <= |pieces[k]| <= limit
  }

  ghost predicate AcksMatch(first: seq<byte>, chunks: seq<seq<byte>>, acks: seq<seq<byte>>) {
    && |acks| <= |chunks|
    && forall k :: 0 <= k < |acks| ==> AckIs(first, chunks, k, acks[k])
  }

  ghost predicate AckIs(first: seq<byte>, chunks: seq<seq<byte>>, k: nat, ack: seq<byte>) {
    && k < |chunks|
    && |BufferAfter(first, chunks[..k + 1])| == READ_SIZE
    && ack == BufferAfter(first, chunks[..k + 1])[..STAMP]
  }

  /** The bytes in both directions and the counters. */
  ghost predicate BytesInvariant(s: State) {
    && Sizes(s.chunks, READ_SIZE) && Sizes(s.gots, STAMP)
    && |s.stamps| == |s.gots| + (if s.client.Waiting? then 1 else 0)
    && Stream(s.stamps) == Flatten(s.chunks) + s.toServer
    && Flatten(s.acks) == Flatten(s.gots) + s.toClient
    && s.dataSent == Wrap32(|Stream(s.stamps)|)
    && s.totalBytes == Wrap32(|Flatten(Acked(s))|)
  }

  /** The server's buffer and what it acknowledged. */
  ghost predicate ServerInvariant(s: State) {
    && |s.first| == |s.buffer| == READ_SIZE && s.buffer == BufferAfter(s.first, s.chunks)
    && (s.server.Acking? ==> s.chunks != [])
    && |s.acks| == |Acked(s)| && AcksMatch(s.first, s.chunks, s.acks)
  }

  ghost predicate Invariant(s: State) {
    BytesInvariant(s) && ServerInvariant(s)
  }

  lemma FlattenExtends(chunks: seq<seq<byte>>, chunk: seq<byte>)
    ensures Flatten(chunks + [chunk]) == Flatten(chunks) + chunk
  {
    assert (chunks + [chunk])[..|chunks|] == chunks;
  }

  lemma WrapAdds(x: int, y: int)
    ensures Wrap32(Wrap32(x) + y) == Wrap32(x + y)
  {
    var q := (x + TWO_31) / TWO_32;
    assert Wrap32(x) == x - q * TWO_32;
    assert (x + y - q * TWO_32 + TWO_31) % TWO_32 == (x + y + TWO_31) % TWO_32 by {
      ShiftedRemainder(x + y + TWO_31, q);
    }
  }

  lemma {:induction false} ShiftedRemainder(a: int, q: int)
    ensures (a - q * TWO_32) % TWO_32 == a % TWO_32
    decreases if q < 0 then -q else q
  {
    if q > 0 {
      ShiftedRemainder(a - TWO_32, q - 1);
    } else if q < 0 {
      ShiftedRemainder(a + TWO_32, q + 1);
    }
  }

  lemma InvariantStep(s: State, e: Event, s': State)
    requires Invariant(s) && Next(s, e, s')
    ensures Invariant(s')
  {
    match e
    case ClientSend(t) => SendStep(s, t, s');
    case ServerRead(n) => ReadStep(s, n, s');
    case ServerAck => AckStep(s, s');
    case ClientRead(n) => GotStep(s, n, s');
  }

  lemma SendStep(s: State, t: int64, s': State)
    requires Invariant(s) && Next(s, ClientSend(t), s')
    ensures Invariant(s')
  {
    assert s'.stamps[..|s.stamps|] == s.stamps;
    assert Stream(s'.stamps) == Flatten(s.chunks) + s'.toServer by {
      Associative(Flatten(s.chunks), s.toServer, PacketOf(t));
    }
    WrapAdds(|Stream(s.stamps)|, PACKET);
    assert Acked(s') == Acked(s);
  }

  lemma Associative(a: seq<byte>, b: seq<byte>, c: seq<byte>)
    ensures (a + b) + c == a + (b + c)
  {
  }

  lemma GotStep(s: State, n: nat, s': State)
    requires Invariant(s) && Next(s, ClientRead(n), s')
    ensures Invariant(s')
  {
    var got := s.toClient[..n];
    assert Flatten(s.acks) == Flatten(s'.gots) + s'.toClient by {
      FlattenExtends(s.gots, got);
      assert s.toClient == got + s'.toClient;
      Associative(Flatten(s.gots), got, s'.toClient);
    }
    assert Acked(s') == Acked(s);
  }

  lemma ReadStep(s: State, n: nat, s': State)
    requires Invariant(s) && Next(s, ServerRead(n), s')
    ensures Invariant(s')
  {
    var chunk := s.toServer[..n];
    assert Stream(s.stamps) == Flatten(s'.chunks) + s'.toServer by {
      FlattenExtends(s.chunks, chunk);
      assert s.toServer == chunk + s'.toServer;
      Associative(Flatten(s.chunks), chunk, s'.toServer);
    }
    assert s'.chunks[..|s.chunks|] == s.chunks;
    MatchMoreChunks(s.first, s.chunks, chunk, s.acks);
    assert Acked(s') == Acked(s);
  }

  lemma MatchMoreChunks(first: seq<byte>, chunks: seq<seq<byte>>, chunk: seq<byte>, acks: seq<seq<byte>>)
    requires AcksMatch(first, chunks, acks)
    ensures AcksMatch(first, chunks + [chunk], acks)
  {
    forall k | 0 <= k < |acks| ensures AckIs(first, chunks + [chunk], k, acks[k]) {
      assert AckIs(first, chunks, k, acks[k]);
      assert (chunks + [chunk])[..k + 1] == chunks[..k + 1];
    }
  }

  lemma AckStep(s: State, s': State)
    requires Invariant(s) && Next(s, ServerAck, s')
    ensures Invariant(s')
  {
    AckBytes(s, s');
    MatchMoreAcks(s.first, s.chunks, s.acks, s.buffer[..STAMP]);
  }

  lemma AckBytes(s: State, s': State)
    requires BytesInvariant(s) && s.server.Acking? && Next(s, ServerAck, s')
    ensures BytesInvariant(s')
  {
    var ack := s.buffer[..STAMP];
    assert Flatten(s'.acks) == Flatten(s.gots) + s'.toClient by {
      FlattenExtends(s.acks, ack);
      Associative(Flatten(s.gots), s.toClient, ack);
    }
    assert Acked(s') == s.chunks;
    TotalStep(s.chunks);
  }

  lemma TotalStep(chunks: seq<seq<byte>>)
    requires chunks != []
    ensures var front, last := chunks[..|chunks| - 1], chunks[|chunks| - 1];
      Wrap32(Wrap32(|Flatten(front)|) + |last|) == Wrap32(|Flatten(chunks)|)
  {
    WrapAdds(|Flatten(chunks[..|chunks| - 1])|, |chunks[|chunks| - 1]|);
  }

  lemma MatchMoreAcks(first: seq<byte>, chunks: seq<seq<byte>>, acks: seq<seq<byte>>, ack: seq<byte>)
    requires AcksMatch(first, chunks, acks) && |chunks| == |acks| + 1
    requires |BufferAfter(first, chunks)| == READ_SIZE && ack == BufferAfter(first, chunks)[..STAMP]
    ensures AcksMatch(first, chunks, acks + [ack])
  {
    assert chunks[..|acks| + 1] == chunks;
    forall k | 0 <= k < |acks| + 1 ensures AckIs(first, chunks, k, (acks + [ack])[k]) {
      if k < |acks| {
        assert AckIs(first, chunks, k, acks[k]);
      }
    }
  }

  lemma {:induction false} InvariantHolds(trace: seq<State>, es: seq<Event>, n: nat)
    requires IsRun(trace, es) && Init(trace[0]) && n <= |es|
    ensures Invariant(trace[n])
  {
    if n > 0 {
      InvariantHolds(trace, es, n - 1);
      InvariantStep(trace[n - 1], es[n - 1], trace[n]);
    }
  }

  lemma ReachableInvariant(s: State)
    requires Reachable(s)
    ensures Invariant(s)
  {
    var trace, es :| IsRun(trace, es) && Init(trace[0]) && trace[|es|] == s;
    InvariantHolds(trace, es, |es|);
  }

  // ---------------------------------------------------------------- conservation and counters

  lemma {:induction false} StreamLength(stamps: seq<int64>)
    ensures |Stream(stamps)| == PACKET * |stamps|
  {
    if stamps != [] {
      StreamLength(stamps[..|stamps| - 1]);
    }
  }

  lemma {:induction false} FlattenBounds(pieces: seq<seq<byte>>, limit: nat)
    requires Sizes(pieces, limit)
    ensures |pieces| <= |Flatten(pieces)| <= limit * |pieces|
  {
    if pieces != [] {
      FlattenBounds(pieces[..|pieces| - 1], limit);
      assert limit * |pieces| == limit * (|pieces| - 1) + limit;
    }
  }

  lemma {:induction false} FlattenExact(pieces: seq<seq<byte>>, size: nat)
    requires forall k :: 0 <= k < |pieces| ==> |pieces[k]| == size
    ensures |Flatten(pieces)| == size * |pieces|
  {
    if pieces != [] {
      FlattenExact(pieces[..|pieces| - 1], size);
      assert size * |pieces| == size * (|pieces| - 1) + size;
    }
  }

  /** No byte is lost, repeated or reordered in either direction, and every read is acknowledged by eight bytes. */
  lemma ByteConservation(s: State)
    requires Reachable(s)
    ensures Stream(s.stamps) == Flatten(s.chunks) + s.toServer
    ensures Flatten(s.acks) == Flatten(s.gots) + s.toClient
    ensures |Flatten(s.chunks)| + |s.toServer| == PACKET * |s.stamps|
    ensures |Flatten(s.gots)| + |s.toClient| == STAMP * |s.acks|
    ensures |s.chunks| == |s.acks| + if s.server.Acking? then 1 else 0
  {
    ReachableInvariant(s);
    StreamLength(s.stamps);
    AckLengths(s);
    FlattenExact(s.acks, STAMP);
  }

  lemma WrapExact(x: nat)
    ensures Wrap32(x) == x <==> x < TWO_31
  {
  }

  /** At its loop boundary each counter is exact if and only if the count fits 31 bits; for the client that means
      fewer than 2^21 packets. */
  lemma CountersExact(s: State)
    requires Reachable(s)
    ensures s.dataSent == PACKET * |s.stamps| <==> |s.stamps| < 0x20_0000
    ensures s.server.Reading? ==> (s.totalBytes == |Flatten(s.chunks)| <==> |Flatten(s.chunks)| < TWO_31)
    ensures s.server.Reading? && |s.stamps| < 0x20_0000 ==> s.dataSent == s.totalBytes + |s.toServer|
  {
    ReachableInvariant(s);
    ByteConservation(s);
    StreamLength(s.stamps);
    WrapExact(PACKET * |s.stamps|);
    WrapExact(|Flatten(s.chunks)|);
  }

  // ---------------------------------------------------------------- progress

  /** While the client waits, data is under way to the server, or the server is about to acknowledge, or a whole
      acknowledgement is there to be read; however TCP cut the bytes before. */
  lemma NeverDeadlocks(s: State)
    requires Reachable(s) && s.client.Waiting?
    ensures s.toServer != [] || s.server.Acking? || |s.toClient| >= STAMP
  {
    ReachableInvariant(s);
    ByteConservation(s);
    FlattenBounds(s.chunks, READ_SIZE);
    FlattenBounds(s.gots, STAMP);
  }

  /** TCP may cut anywhere: a server in recv can get any number of bytes from 1 to 1024 that are under way, and a client
      any from 1 to 8; and these are the front of what is under way. */
  lemma AnyReadSize(s: State, n: nat)
    ensures (exists s' :: Next(s, ServerRead(n), s')) <==> s.server.Reading? && 1 <= n <= 1024 && n <= |s.toServer|
    ensures (exists s' :: Next(s, ClientRead(n), s')) <==> s.client.Waiting? && 1 <= n <= 8 && n <= |s.toClient|
    ensures forall s' :: Next(s, ServerRead(n), s') ==>
      s.toServer == s'.chunks[|s.chunks|] + s'.toServer && |s'.chunks[|s.chunks|]| == n
    ensures forall s' :: Next(s, ClientRead(n), s') ==>
      s.toClient == s'.gots[|s.gots|] + s'.toClient && |s'.gots[|s.gots|]| == n
  {
    if s.server.Reading? && 1 <= n <= 1024 && n <= |s.toServer| {
      assert Next(s, ServerRead(n), Read(s, n));
    }
    if s.client.Waiting? && 1 <= n <= 8 && n <= |s.toClient| {
      assert Next(s, ClientRead(n), Got(s, n));
    }
  }

  /** In every reachable state some step is possible, as long as a send returns at once; module AckCapacity says what
      is left of this when it does not. */
  lemma SomeStepIsPossible(s: State) returns (e: Event, s': State)
    requires Reachable(s)
    ensures Next(s, e, s')
  {
    ReachableInvariant(s);
    if s.client.Ready? {
      e, s' := ClientSend(0), Sent(s, 0);
    } else if s.server.Acking? {
      e, s' := ServerAck, Answered(s);
    } else if s.toServer != [] {
      e, s' := ServerRead(1), Read(s, 1);
    } else {
      NeverDeadlocks(s);
      e, s' := ClientRead(1), Got(s, 1);
    }
  }

  /** How many server steps are left before the client must be served. */
  function ServerWork(s: State): nat {
    2 * |s.toServer| + if s.server.Acking? then 1 else 0
  }

  ghost predicate ServerOnly(es: seq<Event>) {
    forall n :: 0 <= n < |es| ==> es[n].ServerRead? || es[n].ServerAck?
  }

  /** The server cannot run on forever while the client waits: its steps are bounded by the bytes under way. */
  lemma {:induction false} ServerStepsBounded(trace: seq<State>, es: seq<Event>, n: nat)
    requires IsRun(trace, es) && ServerOnly(es) && n <= |es|
    ensures n + ServerWork(trace[n]) <= ServerWork(trace[0])
    ensures trace[n].client == trace[0].client
  {
    if n > 0 {
      ServerStepsBounded(trace, es, n - 1);
      assert Next(trace[n - 1], es[n - 1], trace[n]);
    }
  }

  // ---------------------------------------------------------------- what an acknowledgement carries

  /** The stream position at which read `k` began. */
  function ReadOffset(chunks: seq<seq<byte>>, k: nat): nat
    requires k <= |chunks|
  {
    |Flatten(chunks[..k])|
  }

  lemma {:induction false} FlattenPrefix(chunks: seq<seq<byte>>, k: nat)
    requires k <= |chunks|
    ensures Flatten(chunks[..k]) <= Flatten(chunks)
    decreases |chunks|
  {
    if k < |chunks| {
      FlattenPrefix(chunks[..|chunks| - 1], k);
      assert chunks[..|chunks| - 1][..k] == chunks[..k];
    } else {
      assert chunks[..k] == chunks;
    }
  }

  /** Byte `j` of acknowledgement `k`, whatever read `k` returned: a stream byte if the read brought it, otherwise what
      the previous acknowledgement had there, or the buffer's first contents if there was none. */
  lemma AckBytewise(s: State, k: nat, j: nat)
    requires Reachable(s) && k < |s.acks| && j < STAMP
    ensures |s.acks| <= |s.chunks| && |s.first| == READ_SIZE
    ensures forall i :: 0 <= i < |s.acks| ==> |s.acks[i]| == STAMP
    ensures j < |s.chunks[k]| ==> ReadOffset(s.chunks, k) + j < |Stream(s.stamps)|
    ensures s.acks[k][j] ==
      if j < |s.chunks[k]| then Stream(s.stamps)[ReadOffset(s.chunks, k) + j]
      else if k > 0 then s.acks[k - 1][j]
      else s.first[j]
  {
    hide Reachable, Stream, Flatten, ReadOffset, Wrap32;
    ReachableInvariant(s);
    AckLengths(s);
    assert AckIs(s.first, s.chunks, k, s.acks[k]);
    assert s.chunks[..k + 1][..k] == s.chunks[..k];
    if j < |s.chunks[k]| {
      ChunkInStream(s, k, j);
    } else if k > 0 {
      assert AckIs(s.first, s.chunks, k - 1, s.acks[k - 1]);
    }
  }

  lemma ChunkInStream(s: State, k: nat, j: nat)
    requires Reachable(s) && k < |s.chunks| && j < |s.chunks[k]|
    ensures ReadOffset(s.chunks, k) + j < |Stream(s.stamps)|
    ensures s.chunks[k][j] == Stream(s.stamps)[ReadOffset(s.chunks, k) + j]
  {
    assert Stream(s.stamps) == Flatten(s.chunks) + s.toServer by { ByteConservation(s); }
    assert s.chunks[..k + 1] == s.chunks[..k] + [s.chunks[k]];
    FlattenExtends(s.chunks[..k], s.chunks[k]);
    FlattenPrefix(s.chunks, k + 1);
    IndexInPrefix(Flatten(s.chunks[..k]), s.chunks[k], Flatten(s.chunks), s.toServer, j);
  }

  lemma IndexInPrefix(before: seq<byte>, chunk: seq<byte>, all: seq<byte>, rest: seq<byte>, j: nat)
    requires before + chunk <= all && j < |chunk|
    ensures |before| + j < |all + rest| && (all + rest)[|before| + j] == chunk[j]
  {
    assert all[|before| + j] == (before + chunk)[|before| + j];
  }

  /** Where byte `j` of acknowledgement `k` comes from: a stream position, or nowhere in the stream. */
  function Source(chunks: seq<seq<byte>>, k: nat, j: nat): Option<nat>
    requires k < |chunks|
  {
    if j < |chunks[k]| then Some(ReadOffset(chunks, k) + j)
    else if k == 0 then None
    else Source(chunks, k - 1, j)
  }

  /** A byte that comes from nowhere in the stream is what the server's stack held: the buffer is never set. */
  lemma {:induction false} AckSource(s: State, k: nat, j: nat)
    requires Reachable(s) && k < |s.acks| <= |s.chunks| && |s.acks[k]| == STAMP && j < STAMP
    ensures match Source(s.chunks, k, j)
      case Some(pos) => pos < |Stream(s.stamps)| && s.acks[k][j] == Stream(s.stamps)[pos]
      case None => j < |s.first| && s.acks[k][j] == s.first[j]
  {
    AckBytewise(s, k, j);
    if j >= |s.chunks[k]| && k > 0 {
      AckSource(s, k - 1, j);
    }
  }

  lemma {:induction false} SourceBefore(chunks: seq<seq<byte>>, k: nat, j: nat)
    requires Sizes(chunks, READ_SIZE) && k < |chunks|
    ensures var source := Source(chunks, k, j); source.Some? ==> source.value <= ReadOffset(chunks, k) + j
    ensures var source := Source(chunks, k, j);
      source.Some? && j >= |chunks[k]| ==> source.value < ReadOffset(chunks, k) + j
  {
    if j >= |chunks[k]| && k > 0 {
      SourceBefore(chunks, k - 1, j);
      assert chunks[..k] == chunks[..k - 1] + [chunks[k - 1]];
      FlattenExtends(chunks[..k - 1], chunks[k - 1]);
    }
  }

  ghost predicate Consecutive(chunks: seq<seq<byte>>, k: nat, pos: nat)
    requires k < |chunks|
  {
    forall j: nat :: j < STAMP ==> Source(chunks, k, j) == Some(pos + j)
  }

  /** The bytes of an acknowledgement come from eight consecutive stream positions if and only if its read began at the
      first of them and returned at least eight bytes. What the bytes are is the subject of AckEqualsIff: a shorter
      read can be acknowledged with the same bytes, left in the buffer by an earlier one. */
  lemma ConsecutiveIff(chunks: seq<seq<byte>>, k: nat, pos: nat)
    requires Sizes(chunks, READ_SIZE) && k < |chunks|
    ensures Consecutive(chunks, k, pos) <==> ReadOffset(chunks, k) == pos && |chunks[k]| >= STAMP
  {
    hide ReadOffset;
    SourceBefore(chunks, k, STAMP - 1);
    if Consecutive(chunks, k, pos) {
      assert Source(chunks, k, 0) == Some(pos + 0);
      assert Source(chunks, k, STAMP - 1) == Some(pos + (STAMP - 1));
    }
  }

  /** As far as read `k` reached, its acknowledgement is the stream at the read's offset. */
  lemma AckIsStreamAtOffset(s: State, k: nat)
    requires Reachable(s) && k < |s.acks| <= |s.chunks|
    ensures var offset, m := ReadOffset(s.chunks, k), Min(STAMP, |s.chunks[k]|);
      && |s.acks[k]| == STAMP && offset + m <= |Stream(s.stamps)|
      && s.acks[k][..m] == Stream(s.stamps)[offset..offset + m]
  {
    var offset, m := ReadOffset(s.chunks, k), Min(STAMP, |s.chunks[k]|);
    AckBytewise(s, k, 0);
    ReachableInvariant(s);
    ChunkInStream(s, k, m - 1);
    forall j | 0 <= j < m ensures s.acks[k][..m][j] == Stream(s.stamps)[offset..offset + m][j] {
      AckBytewise(s, k, j);
    }
  }

  /** What the bytes that read `k` does not reach are acknowledged with. */
  function Stale(first: seq<byte>, acks: seq<seq<byte>>, k: nat): seq<byte>
    requires k <= |acks|
  {
    if k == 0 then first else acks[k - 1]
  }

  /** When an acknowledgement is any given eight bytes: its read brought the front of them, and the rest was there. */
  lemma AckEqualsIff(s: State, k: nat, w: seq<byte>)
    requires Reachable(s) && k < |s.acks| <= |s.chunks| && |w| == STAMP
    ensures var offset, m, stale := ReadOffset(s.chunks, k), Min(STAMP, |s.chunks[k]|), Stale(s.first, s.acks, k);
      && offset + m <= |Stream(s.stamps)| && |stale| >= STAMP
      && (s.acks[k] == w <==> Stream(s.stamps)[offset..offset + m] == w[..m] && stale[m..STAMP] == w[m..])
  {
    var m, stale := Min(STAMP, |s.chunks[k]|), Stale(s.first, s.acks, k);
    AckIsStreamAtOffset(s, k);
    AckBytewise(s, k, 0);
    forall j | m <= j < STAMP ensures s.acks[k][j] == stale[j] {
      AckBytewise(s, k, j);
    }
    assert s.acks[k][m..] == stale[m..STAMP];
    assert s.acks[k] == s.acks[k][..m] + s.acks[k][m..] && w == w[..m] + w[m..];
  }

  lemma {:induction false} StreamAt(stamps: seq<int64>, k: nat, j: nat)
    requires k < |stamps| && j < PACKET
    ensures |Stream(stamps)| == PACKET * |stamps|
    ensures Stream(stamps)[PACKET * k + j] == PacketOf(stamps[k])[j]
  {
    StreamLength(stamps);
    StreamLength(stamps[..|stamps| - 1]);
    if k < |stamps| - 1 {
      StreamAt(stamps[..|stamps| - 1], k, j);
    }
  }

  /** As far as read `k` reached, byte `j` of its acknowledgement is the byte of the packet and the place in it that
      the read's offset gives. */
  lemma AckByte(s: State, k: nat, j: nat)
    requires Reachable(s) && k < |s.acks| <= |s.chunks| && j < STAMP && j < |s.chunks[k]|
    ensures var pos := ReadOffset(s.chunks, k) + j;
      && pos / PACKET < |s.stamps| && |s.acks[k]| == STAMP
      && s.acks[k][j] == PacketOf(s.stamps[pos / PACKET])[pos % PACKET]
  {
    hide Reachable, ReadOffset, Stream, PacketOf;
    var pos := ReadOffset(s.chunks, k) + j;
    AckBytewise(s, k, j);
    ByteInPacket(s.stamps, pos);
  }

  lemma ByteInPacket(stamps: seq<int64>, pos: nat)
    requires pos < |Stream(stamps)|
    ensures pos / PACKET < |stamps|
    ensures Stream(stamps)[pos] == PacketOf(stamps[pos / PACKET])[pos % PACKET]
  {
    StreamLength(stamps);
    StreamAt(stamps, pos / PACKET, pos % PACKET);
  }

  /** What eight bytes of the stream are, by their offset `r` in packet `p`. */
  ghost predicate EightBytesAt(stamps: seq<int64>, p: nat, r: nat, ack: seq<byte>) {
    && p < |stamps|
    && (r == 0 ==> DecodeStamp(ack) == stamps[p])
    && (0 < r < STAMP ==> ack == EncodeStamp(stamps[p])[r..] + seq(r, _ => PADDING))
    && (STAMP <= r <= PACKET - STAMP ==> ack == seq(STAMP, _ => PADDING))
    && (PACKET - STAMP < r < PACKET ==>
          p + 1 < |stamps| &&
          ack == seq(PACKET - r, _ => PADDING) + EncodeStamp(stamps[p + 1])[..STAMP - (PACKET - r)])
  }

  /** The acknowledgement of a read of at least eight bytes, at every offset: a timestamp at a packet boundary, padding
      inside the padding, and a mixture of both where the eight bytes cross the end of one of them. */
  lemma AckByOffset(s: State, k: nat)
    requires Reachable(s) && k < |s.acks| <= |s.chunks| && |s.chunks[k]| >= STAMP
    ensures var offset := ReadOffset(s.chunks, k);
      EightBytesAt(s.stamps, offset / PACKET, offset % PACKET, s.acks[k])
  {
    var offset := ReadOffset(s.chunks, k);
    AckIsStreamAtOffset(s, k);
    StreamLength(s.stamps);
    assert s.acks[k][..STAMP] == s.acks[k];
    EightBytes(s.stamps, offset / PACKET, offset % PACKET);
  }

  lemma StreamSlice(stamps: seq<int64>, p: nat, from: nat, to: nat)
    requires p < |stamps| && from <= to <= PACKET
    ensures PACKET * p + to <= |Stream(stamps)|
    ensures Stream(stamps)[PACKET * p + from..PACKET * p + to] == PacketOf(stamps[p])[from..to]
  {
    StreamLength(stamps);
    forall j | from <= j < to ensures Stream(stamps)[PACKET * p + j] == PacketOf(stamps[p])[j] {
      StreamAt(stamps, p, j);
    }
  }

  lemma EightBytes(stamps: seq<int64>, p: nat, r: nat)
    requires r < PACKET && PACKET * p + r + STAMP <= |Stream(stamps)|
    ensures EightBytesAt(stamps, p, r, Stream(stamps)[PACKET * p + r..PACKET * p + r + STAMP])
  {
    StreamLength(stamps);
    if r <= PACKET - STAMP {
      StreamSlice(stamps, p, r, r + STAMP);
      StampRoundTrip(stamps[p]);
      SliceOfPacket(stamps[p], r);
    } else {
      StreamSlice(stamps, p, r, PACKET);
      StreamSlice(stamps, p + 1, 0, STAMP - (PACKET - r));
    }
  }

  lemma SliceOfPacket(t: int64, r: nat)
    requires r <= PACKET - STAMP
    ensures r == 0 ==> PacketOf(t)[r..r + STAMP] == EncodeStamp(t)
    ensures r < STAMP ==> PacketOf(t)[r..r + STAMP] == EncodeStamp(t)[r..] + seq(r, _ => PADDING)
    ensures STAMP <= r ==> PacketOf(t)[r..r + STAMP] == seq(STAMP, _ => PADDING)
  {
  }

  /** The acknowledgement of a read at a packet boundary decodes to the packet's timestamp if and only if the bytes of
      the timestamp that the read did not bring were in the buffer already. */
  lemma StampAckIff(s: State, k: nat, p: nat)
    requires Reachable(s) && k < |s.acks| <= |s.chunks| && ReadOffset(s.chunks, k) == PACKET * p
    ensures p < |s.stamps| && |Stale(s.first, s.acks, k)| >= STAMP
    ensures var m, stale := Min(STAMP, |s.chunks[k]|), Stale(s.first, s.acks, k);
      DecodeStamp(s.acks[k]) == s.stamps[p] <==> stale[m..STAMP] == EncodeStamp(s.stamps[p])[m..]
  {
    hide Stream, Stale, Overwrite, DecodeStamp, EncodeStamp;
    var m := Min(STAMP, |s.chunks[k]|);
    AckByte(s, k, 0) by { ReachableInvariant(s); }
    AckIsStreamAtOffset(s, k);
    WholeOffset(p);
    var stamp := EncodeStamp(s.stamps[p]);
    StampRoundTrip(s.stamps[p]);
    StreamSlice(s.stamps, p, 0, m);
    assert PacketOf(s.stamps[p])[0..m] == stamp[..m];
    AckEqualsIff(s, k, stamp);
    DecodesIff(s.acks[k], s.stamps[p]);
  }

  /** Timestamps that differ in their low 16 bits only share their last six bytes; counting milliseconds, those 16 bits
      last for 65 seconds. */
  lemma SharedBytes(t: int64, u: int64)
    requires t / 0x1_0000 == u / 0x1_0000
    ensures |EncodeStamp(t)| == |EncodeStamp(u)| == STAMP && EncodeStamp(t)[2..] == EncodeStamp(u)[2..]
  {
    assert t % TWO_64 / 0x1_0000 == u % TWO_64 / 0x1_0000;
    TwoBytesOff(t % TWO_64);
    TwoBytesOff(u % TWO_64);
  }

  lemma TwoBytesOff(x: nat)
    ensures EncodeLE(x, STAMP)[2..] == EncodeLE(x / 0x1_0000, STAMP - 2)
  {
    assert EncodeLE(x, STAMP) == [x % 0x100] + EncodeLE(x / 0x100, STAMP - 1);
    assert EncodeLE(x / 0x100, STAMP - 1) == [x / 0x100 % 0x100] + EncodeLE(x / 0x100 / 0x100, STAMP - 2);
    assert x / 0x100 / 0x100 == x / 0x1_0000;
  }

  /** From a state with nothing under way, a packet goes out and one read of it is acknowledged. */
  lemma SendReadAck(s: State, t: int64, n: nat) returns (s': State)
    requires Reachable(s) && s.client.Ready? && s.server.Reading? && s.toServer == [] && |s.buffer| == READ_SIZE
    requires 1 <= n <= PACKET
    ensures Reachable(s') && s'.client.Waiting? && s'.server.Reading? && s'.toServer == PacketOf(t)[n..]
    ensures s'.first == s.first && s'.stamps == s.stamps + [t] && s'.chunks == s.chunks + [PacketOf(t)[..n]]
    ensures s'.buffer == Overwrite(s.buffer, PacketOf(t)[..n]) && |s'.buffer| == READ_SIZE
    ensures s'.acks == s.acks + [s'.buffer[..STAMP]] && s'.toClient == s.toClient + s'.buffer[..STAMP]
  {
    hide Reachable, PacketOf;
    var sent := Sent(s, t);
    ReachableStep(s, ClientSend(t), sent);
    assert sent.toServer == PacketOf(t);
    var read := Read(sent, n);
    ReachableStep(sent, ServerRead(n), read);
    s' := Answered(read);
    ReachableStep(read, ServerAck, s');
  }

  lemma Start(first: seq<byte>) returns (s: State)
    requires |first| == READ_SIZE
    ensures Reachable(s) && s == State(Ready, Reading, [], [], first, 0, 0, first, [], [], [], [])
  {
    s := State(Ready, Reading, [], [], first, 0, 0, first, [], [], [], []);
    InitReachable(s);
  }

  /** So of two packets sent shortly after each other the second is acknowledged with its timestamp although the read
      brought two bytes of it. */
  lemma ShortReadMatches(first: seq<byte>, t: int64, u: int64) returns (s: State)
    requires |first| == READ_SIZE && t / 0x1_0000 == u / 0x1_0000
    ensures Reachable(s) && s.stamps == [t, u] && s.chunks == [PacketOf(t), PacketOf(u)[..2]] && |s.acks| == 2
    ensures ReadOffset(s.chunks, 1) == PACKET && DecodeStamp(s.acks[1]) == u
  {
    hide Reachable, PacketOf, EncodeStamp, DecodeStamp, Overwrite;
    s := Start(first);
    s := SendReadAck(s, t, PACKET);
    WholeOverwrite(first, PacketOf(t));
    var got := Got(s, STAMP);
    ReachableStep(s, ClientRead(STAMP), got);
    s := SendReadAck(got, u, 2);
    SharedBytes(t, u);
    TwoBytesOver(t, u);
    StampRoundTrip(u);
    assert s.chunks[..1] == [PacketOf(t)] && Flatten([PacketOf(t)]) == Flatten([]) + PacketOf(t);
  }

  lemma WholeOverwrite(buffer: seq<byte>, chunk: seq<byte>)
    requires |buffer| == |chunk|
    ensures Overwrite(buffer, chunk[..|chunk|]) == chunk[..|chunk|] == chunk
  {
  }

  lemma TwoBytesOver(t: int64, u: int64)
    requires EncodeStamp(t)[2..] == EncodeStamp(u)[2..]
    ensures Overwrite(PacketOf(t), PacketOf(u)[..2])[..STAMP] == EncodeStamp(u)
  {
  }

  /** The shortest first read: one byte of the timestamp is acknowledged with seven bytes that nobody sent. */
  lemma ShortFirstRead(first: seq<byte>, t: int64) returns (s: State)
    requires |first| == READ_SIZE
    ensures Reachable(s) && s.stamps == [t] && s.acks == [[PacketOf(t)[0]] + first[1..STAMP]]
  {
    s := Start(first);
    s := SendReadAck(s, t, 1);
    assert s.buffer[..STAMP] == [PacketOf(t)[0]] + first[1..STAMP];
  }

  // ---------------------------------------------------------------- whole packets and whole acks

  ghost predicate WholeReads(s: State) {
    && (forall k :: 0 <= k < |s.chunks| ==> |s.chunks[k]| == PACKET)
    && (forall k :: 0 <= k < |s.gots| ==> |s.gots[k]| == STAMP)
  }

  lemma {:induction false} PieceAt(pieces: seq<seq<byte>>, size: nat, k: nat)
    requires (forall j :: 0 <= j < |pieces| ==> |pieces[j]| == size) && k < |pieces|
    ensures 0 <= size * k <= size * k + size <= |Flatten(pieces)|
    ensures Flatten(pieces)[size * k..size * k + size] == pieces[k]
  {
    var front := pieces[..|pieces| - 1];
    FlattenExact(front, size);
    FlattenExact(pieces, size);
    if k < |front| {
      PieceAt(front, size, k);
    } else {
      assert Flatten(pieces) == Flatten(front) + pieces[k];
    }
  }

  /** If every read returned a whole packet and every ack was read whole, one thing at most is under way: a packet,
      an ack about to be sent or an ack, exactly one while the client waits and none while it does not. */
  lemma StopAndWait(s: State)
    requires Reachable(s) && WholeReads(s)
    ensures |s.gots| <= |s.acks| <= |s.chunks| <= |s.stamps|
    ensures |s.toServer| == PACKET * (|s.stamps| - |s.chunks|) && |s.toClient| == STAMP * (|s.acks| - |s.gots|)
    ensures (|s.stamps| - |s.chunks|) + (if s.server.Acking? then 1 else 0) + (|s.acks| - |s.gots|)
      == if s.client.Waiting? then 1 else 0
  {
    assert |s.stamps| == |s.gots| + (if s.client.Waiting? then 1 else 0) by { ReachableInvariant(s); }
    ByteConservation(s);
    FlattenExact(s.chunks, PACKET);
    FlattenExact(s.gots, STAMP);
  }

  /** Then the n-th ack sent carries the n-th packet's timestamp. */
  lemma StopAndWaitStamps(s: State, k: nat)
    requires Reachable(s) && WholeReads(s) && k < |s.acks|
    ensures k < |s.stamps| && DecodeStamp(s.acks[k]) == s.stamps[k]
  {
    StopAndWait(s);
    FlattenExact(s.chunks[..k], PACKET);
    AckByOffset(s, k);
    WholeOffset(k);
  }

  lemma WholeOffset(k: nat)
    ensures PACKET * k / PACKET == k && PACKET * k % PACKET == 0
  {
  }

  /** And the client's n-th read returns the n-th ack. */
  lemma StopAndWaitReplies(s: State, k: nat)
    requires Reachable(s) && WholeReads(s) && k < |s.gots|
    ensures k < |s.acks| && s.gots[k] == s.acks[k]
  {
    StopAndWait(s);
    ByteConservation(s);
    AckLengths(s);
    PieceAt(s.gots, STAMP, k);
    PieceAt(s.acks, STAMP, k);
  }

  lemma AckLengths(s: State)
    requires Reachable(s)
    ensures forall j :: 0 <= j < |s.acks| ==> |s.acks[j]| == STAMP
  {
    ReachableInvariant(s);
    forall j | 0 <= j < |s.acks| ensures |s.acks[j]| == STAMP {
      assert AckIs(s.first, s.chunks, j, s.acks[j]);
    }
  }

  // ---------------------------------------------------------------- the histories are the run's

  function StampsSent(es: seq<Event>): seq<int64> {
    if es == [] then [] else
      StampsSent(es[..|es| - 1]) + if es[|es| - 1].ClientSend? then [es[|es| - 1].t] else []
  }

  function ReadSizes(es: seq<Event>): seq<nat> {
    if es == [] then [] else
      ReadSizes(es[..|es| - 1]) + if es[|es| - 1].ServerRead? then [es[|es| - 1].n] else []
  }

  function GotSizes(es: seq<Event>): seq<nat> {
    if es == [] then [] else
      GotSizes(es[..|es| - 1]) + if es[|es| - 1].ClientRead? then [es[|es| - 1].n] else []
  }

  function Lengths(pieces: seq<seq<byte>>): seq<nat> {
    seq(|pieces|, k requires 0 <= k < |pieces| => |pieces[k]|)
  }

  ghost predicate RecordsEvents(s: State, es: seq<Event>) {
    s.stamps == StampsSent(es) && Lengths(s.chunks) == ReadSizes(es) && Lengths(s.gots) == GotSizes(es)
  }

  /** The packets, reads and replies recorded in a state are those of the events. */
  lemma {:induction false} HistoryOfRun(trace: seq<State>, es: seq<Event>, n: nat)
    requires IsRun(trace, es) && Init(trace[0]) && n <= |es|
    ensures RecordsEvents(trace[n], es[..n])
  {
    if n > 0 {
      HistoryOfRun(trace, es, n - 1);
      var s, e, s' := trace[n - 1], es[n - 1], trace[n];
      assert es[..n][..n - 1] == es[..n - 1];
      assert Next(s, e, s');
      if e.ServerRead? {
        assert Lengths(s'.chunks) == Lengths(s.chunks) + [e.n];
      } else if e.ClientRead? {
        assert Lengths(s'.gots) == Lengths(s.gots) + [e.n];
      }
    }
  }
}

/** One sending node, the peers it discovers and the datagrams between them, as a state machine whose steps are the
    lock-protected sections of Online_AV/Online_AV.cpp (LookForPeers, VideoRecandSend, VideoPlayback). The network may
    lose, delay and reorder datagrams; it delivers none twice. */
module VideoSystem {
  import opened Basics
  import opened Fragmentation
  import opened Reassembly

  /** The two fields of an address that discovery compares. */
  datatype Peer = Peer(addr: uint32, port: uint16)

  datatype Phase = Idle | Sending(frame: seq<byte>, next: nat)

  /** A discovered peer: the length of the sender's output when it joined, the fragments addressed to it since,
      those still under way, and the receiver at its end. */
  datatype Link = Link(joined: nat, sent: seq<Fragment>, inFlight: multiset<Fragment>, receiver: Receiver)

  /** `peers`, `frameSeq` and `phase` are the program's state. The rest is history: the sources of HELLO messages,
      the frames encoded so far, the fragments put out so far, and what happened to them per peer. */
  datatype State = State(
    peers: seq<Peer>,
    frameSeq: uint32,
    phase: Phase,
    hellos: seq<Peer>,
    frames: seq<seq<byte>>,
    wire: seq<Fragment>,
    links: map<Peer, Link>)

  const INIT := State([], 0, Idle, [], [], [], map[])

  datatype Event =
    | Hear(message: seq<byte>, from: Peer)
    | BeginFrame(frame: seq<byte>)
    | SendFragment
    | EndFrame
    | Deliver(to: Peer, f: Fragment)
    | Lose(to: Peer, f: Fragment)

  // ---------------------------------------------------------------- the steps

  const HELLO: seq<byte> := [72, 69, 76, 76, 79]
  const RECEIVE_LIMIT: nat := 1023

  /** The bytes before the first NUL. */
  function CString(s: seq<byte>): seq<byte> {
    if s == [] || s[0] == 0 then [] else [s[0]] + CString(s[1..])
  }

  /** The receive buffer takes 1023 bytes, is closed with a NUL and compared as a C string. */
  predicate IsHello(message: seq<byte>) {
    CString(message[..Min(|message|, RECEIVE_LIMIT)]) == HELLO
  }

  /** Trailing bytes are ignored if and only if a NUL precedes them. */
  lemma HelloMessages(message: seq<byte>)
    ensures IsHello(message) <==> [72, 69, 76, 76, 79] <= message && (|message| == 5 || message[5] == 0)
  {
    var s := message[..Min(|message|, RECEIVE_LIMIT)];
    CStringPrefix(s, HELLO);
    assert HELLO <= s <==> HELLO <= message;
  }

  lemma {:induction false} CStringPrefix(s: seq<byte>, text: seq<byte>)
    requires 0 !in text
    ensures CString(s) == text <==> text <= s && (|s| == |text| || s[|text|] == 0)
  {
    if text != [] && s != [] && s[0] == text[0] {
      CStringPrefix(s[1..], text[1..]);
      assert s == [s[0]] + s[1..] && text == [text[0]] + text[1..];
    }
  }

  function Register(s: State, p: Peer): State {
    if p in s.peers then s.(hellos := s.hellos + [p])
    else s.(
      hellos := s.hellos + [p],
      peers := s.peers + [p],
      links := s.links[p := Link(|s.wire|, [], multiset{}, EMPTY_RECEIVER)])
  }

  function Heard(s: State, message: seq<byte>, from: Peer): State {
    if IsHello(message) then Register(s, from) else s
  }

  function SentTo(link: Link, f: Fragment): Link {
    link.(sent := link.sent + [f], inFlight := link.inFlight + multiset{f})
  }

  function Broadcast(s: State): State
    requires s.phase.Sending? && s.phase.next < TotalFragments(|s.phase.frame|)
  {
    var f := FragmentAt(s.frameSeq, s.phase.frame, s.phase.next);
    s.(phase := Sending(s.phase.frame, s.phase.next + 1),
       wire := s.wire + [f],
       links := map p | p in s.links :: SentTo(s.links[p], f))
  }

  ghost predicate Next(s: State, e: Event, s': State) {
    match e
    case Hear(message, from) =>
      s' == Heard(s, message, from)
    case BeginFrame(frame) =>
      s.phase.Idle? && s' == s.(phase := Sending(frame, 0), frames := s.frames + [frame])
    case SendFragment =>
      s.phase.Sending? && s.phase.next < TotalFragments(|s.phase.frame|) && s' == Broadcast(s)
    case EndFrame =>
      && s.phase.Sending? && s.phase.next == TotalFragments(|s.phase.frame|)
      && s' == s.(phase := Idle, frameSeq := (s.frameSeq + 1) % TWO_32)
    case Deliver(to, f) =>
      && to in s.links && f in s.links[to].inFlight && to in s'.links
      && Receives(s.links[to].receiver, f, s'.links[to].receiver)
      && s' == s.(links := s.links[to := s.links[to].(
                   inFlight := s.links[to].inFlight - multiset{f},
                   receiver := s'.links[to].receiver)])
    case Lose(to, f) =>
      && to in s.links && f in s.links[to].inFlight
      && s' == s.(links := s.links[to := s.links[to].(inFlight := s.links[to].inFlight - multiset{f})])
  }

  /** The states of a run and the events between them. */
  ghost predicate IsRun(trace: seq<State>, es: seq<Event>) {
    && |trace| == |es| + 1
    && forall n :: 0 <= n < |es| ==> Next(trace[n], es[n], trace[n + 1])
  }

  ghost predicate Runs(s: State, es: seq<Event>, t: State) {
    exists trace :: IsRun(trace, es) && trace[0] == s && trace[|es|] == t
  }

  ghost predicate Reachable(t: State) {
    exists es :: Runs(INIT, es, t)
  }

  lemma RunsNowhere(s: State)
    ensures Runs(s, [], s)
  {
    assert IsRun([s], []);
  }

  lemma RunsExtend(s: State, es: seq<Event>, m: State, e: Event, t: State)
    requires Runs(s, es, m) && Next(m, e, t)
    ensures Runs(s, es + [e], t)
  {
    var trace :| IsRun(trace, es) && trace[0] == s && trace[|es|] == m;
    assert IsRun(trace + [t], es + [e]);
  }

  lemma ReachableStep(s: State, e: Event, s': State)
    requires Reachable(s) && Next(s, e, s')
    ensures Reachable(s')
  {
    var es :| Runs(INIT, es, s);
    RunsExtend(INIT, es, s, e, s');
  }

  // ---------------------------------------------------------------- the sender's output

  /** The first frames that can be numbered without reuse. */
  ghost predicate Numbered(frames: seq<seq<byte>>) {
    |frames| <= TWO_32
  }

  /** All fragments of the first `k` frames, in order. */
  ghost function Emitted(frames: seq<seq<byte>>, k: nat): seq<Fragment>
    requires k <= |frames| && Numbered(frames)
  {
    if k == 0 then [] else Emitted(frames, k - 1) + FragmentsOf(k - 1, frames[k - 1])
  }

  /** The position in the output of the first fragment of frame `k`. */
  ghost function Start(frames: seq<seq<byte>>, k: nat): nat
    requires k <= |frames| && Numbered(frames)
  {
    |Emitted(frames, k)|
  }

  ghost predicate IsCursor(frames: seq<seq<byte>>, k: nat, i: nat) {
    && Numbered(frames) && k <= |frames|
    && (i > 0 ==> k < |frames|)
    && (k < |frames| ==> i <= TotalFragments(|frames[k]|))
  }

  /** The output when `i` fragments of frame `k` are out. */
  ghost function WireAt(frames: seq<seq<byte>>, k: nat, i: nat): seq<Fragment>
    requires IsCursor(frames, k, i)
  {
    Emitted(frames, k) + if k < |frames| then FragmentsOf(k, frames[k])[..i] else []
  }

  ghost predicate InPlace(frames: seq<seq<byte>>, wire: seq<Fragment>, p: nat)
    requires Numbered(frames) && p < |wire|
  {
    && Genuine(frames, wire[p])
    && p == Start(frames, wire[p].frameSeq) + wire[p].index
  }

  lemma {:induction false} EmittedInPlace(frames: seq<seq<byte>>, k: nat)
    requires Numbered(frames) && k <= |frames|
    ensures forall p :: 0 <= p < |Emitted(frames, k)| ==>
      InPlace(frames, Emitted(frames, k), p) && Emitted(frames, k)[p].frameSeq < k
  {
    if k > 0 {
      EmittedInPlace(frames, k - 1);
      var front := Emitted(frames, k - 1);
      forall p | 0 <= p < |Emitted(frames, k)|
        ensures InPlace(frames, Emitted(frames, k), p) && Emitted(frames, k)[p].frameSeq < k
      {
        if p < |front| {
          assert InPlace(frames, front, p);
        }
      }
    }
  }

  /** Every fragment put out is at the position its frame number and index say; so none is put out twice. */
  lemma WireInPlace(frames: seq<seq<byte>>, k: nat, i: nat)
    requires IsCursor(frames, k, i)
    ensures var wire := WireAt(frames, k, i);
      (forall p :: 0 <= p < |wire| ==> InPlace(frames, wire, p)) && Distinct(wire)
  {
    var wire, front := WireAt(frames, k, i), Emitted(frames, k);
    EmittedInPlace(frames, k);
    forall p | 0 <= p < |wire| ensures InPlace(frames, wire, p) {
      if p < |front| {
        assert InPlace(frames, front, p);
      }
    }
    forall p, p' | 0 <= p < p' < |wire| ensures wire[p] != wire[p'] {
      assert InPlace(frames, wire, p) && InPlace(frames, wire, p');
    }
  }

  lemma WireGrowsByOne(frames: seq<seq<byte>>, k: nat, i: nat)
    requires IsCursor(frames, k, i) && k < |frames| && i < TotalFragments(|frames[k]|)
    ensures WireAt(frames, k, i + 1) == WireAt(frames, k, i) + [FragmentAt(k, frames[k], i)]
  {
    var fs := FragmentsOf(k, frames[k]);
    assert fs[..i + 1] == fs[..i] + [fs[i]];
  }

  lemma NextFrameSameWire(frames: seq<seq<byte>>, k: nat)
    requires Numbered(frames) && 0 < k <= |frames|
    ensures WireAt(frames, k, 0) == WireAt(frames, k - 1, TotalFragments(|frames[k - 1]|))
  {
    var fs := FragmentsOf(k - 1, frames[k - 1]);
    assert fs[..|fs|] == fs;
  }

  lemma {:induction false} EmittedWithMoreFrames(frames: seq<seq<byte>>, frame: seq<byte>, k: nat)
    requires Numbered(frames + [frame]) && k <= |frames|
    ensures Emitted(frames + [frame], k) == Emitted(frames, k)
  {
    if k > 0 {
      EmittedWithMoreFrames(frames, frame, k - 1);
    }
  }

  // ---------------------------------------------------------------- discovery

  /** The sources of a list of messages, each where it first occurs. */
  function FirstSeen(sources: seq<Peer>): seq<Peer> {
    if sources == [] then []
    else
      var front, p := FirstSeen(sources[..|sources| - 1]), sources[|sources| - 1];
      if p in front then front else front + [p]
  }

  ghost predicate DiscoveryInvariant(s: State) {
    && s.peers == FirstSeen(s.hellos)
    && Distinct(s.peers)
    && (forall p :: p in s.peers <==> p in s.links)
  }

  /** What FirstSeen means: every source once, in the order of first messages. */
  lemma {:induction false} FirstSeenOrder(sources: seq<Peer>)
    ensures Distinct(FirstSeen(sources))
    ensures forall p :: p in FirstSeen(sources) <==> p in sources
    ensures forall i, j :: 0 <= i < j < |FirstSeen(sources)| ==>
      ComesBefore(sources, FirstSeen(sources)[i], FirstSeen(sources)[j])
  {
    if sources != [] {
      var front, p := sources[..|sources| - 1], sources[|sources| - 1];
      FirstSeenOrder(front);
      assert sources == front + [p];
      forall i, j | 0 <= i < j < |FirstSeen(sources)|
        ensures ComesBefore(sources, FirstSeen(sources)[i], FirstSeen(sources)[j])
      {
        var a, b := FirstSeen(sources)[i], FirstSeen(sources)[j];
        if j < |FirstSeen(front)| {
          assert ComesBefore(front, a, b);
          var k :| 0 <= k < |front| && front[k] == a && b !in front[..k + 1];
          assert sources[k] == a && sources[..k + 1] == front[..k + 1];
        } else {
          assert a in front && b !in front;
          var k :| 0 <= k < |front| && front[k] == a;
          assert sources[k] == a && sources[..k + 1] == front[..k + 1];
        }
      }
    }
  }

  /** The first message of `a` precedes every message of `b`. */
  ghost predicate ComesBefore(sources: seq<Peer>, a: Peer, b: Peer) {
    exists k :: 0 <= k < |sources| && sources[k] == a && b !in sources[..k + 1]
  }

  // ---------------------------------------------------------------- the invariant

  ghost function CursorFrame(s: State): int {
    if s.phase.Sending? then |s.frames| - 1 else |s.frames|
  }

  ghost function CursorIndex(s: State): nat {
    if s.phase.Sending? then s.phase.next else 0
  }

  ghost predicate SenderInvariant(s: State) {
    var k, i := CursorFrame(s), CursorIndex(s);
    && 0 <= k && IsCursor(s.frames, k, i)
    && s.frameSeq == k % TWO_32
    && (s.phase.Sending? ==> s.frames[k] == s.phase.frame)
    && s.wire == WireAt(s.frames, k, i)
  }

  ghost predicate LinkInvariant(frames: seq<seq<byte>>, wire: seq<Fragment>, link: Link) {
    && link.joined <= |wire| && link.sent == wire[link.joined..]
    && multiset(link.receiver.delivered) + link.inFlight <= multiset(link.sent)
    && ReceiverInvariant(frames, link.receiver)
  }

  ghost predicate Invariant(s: State) {
    && DiscoveryInvariant(s)
    && (Numbered(s.frames) ==>
          && SenderInvariant(s)
          && forall p :: p in s.links ==> LinkInvariant(s.frames, s.wire, s.links[p]))
  }

  lemma InvariantStep(s: State, e: Event, s': State)
    requires Invariant(s) && Next(s, e, s')
    ensures Invariant(s')
  {
    match e
    case Hear(message, from) => HearStep(s, message, from);
    case BeginFrame(frame) => BeginStep(s, frame, s');
    case SendFragment => SendStep(s);
    case EndFrame => EndStep(s, s');
    case Deliver(to, f) => DeliverStep(s, to, f, s');
    case Lose(to, f) => LoseStep(s, to, f, s');
  }

  lemma HearStep(s: State, message: seq<byte>, from: Peer)
    requires Invariant(s)
    ensures Invariant(Heard(s, message, from))
  {
    hide LinkInvariant, SenderInvariant, DiscoveryInvariant, IsHello;
    if IsHello(message) {
      var s' := Register(s, from);
      assert DiscoveryInvariant(s') by { RegisterKeepsList(s, from); }
      if Numbered(s.frames) {
        SenderSame(s, s');
        FreshLink(s.frames, s.wire);
      }
    }
  }

  lemma RegisterKeepsList(s: State, p: Peer)
    requires DiscoveryInvariant(s)
    ensures DiscoveryInvariant(Register(s, p))
  {
    assert (s.hellos + [p])[..|s.hellos|] == s.hellos;
  }

  lemma SenderSame(s: State, s': State)
    requires SenderInvariant(s)
    requires s'.frames == s.frames && s'.phase == s.phase && s'.frameSeq == s.frameSeq && s'.wire == s.wire
    ensures SenderInvariant(s')
  {
  }

  lemma FreshLink(frames: seq<seq<byte>>, wire: seq<Fragment>)
    ensures LinkInvariant(frames, wire, Link(|wire|, [], multiset{}, EMPTY_RECEIVER))
  {
    FreshReceiver(frames);
    assert wire[|wire|..] == [];
  }

  lemma FreshReceiver(frames: seq<seq<byte>>)
    ensures ReceiverInvariant(frames, EMPTY_RECEIVER)
  {
  }

  lemma BeginStep(s: State, frame: seq<byte>, s': State)
    requires Invariant(s) && Next(s, BeginFrame(frame), s')
    ensures Invariant(s')
  {
    hide ReceiverInvariant;
    if Numbered(s'.frames) {
      EmittedWithMoreFrames(s.frames, frame, |s.frames|);
      assert FragmentsOf(|s.frames|, frame)[..0] == [];
      forall p | p in s'.links ensures LinkInvariant(s'.frames, s'.wire, s'.links[p]) {
        assert LinkInvariant(s.frames, s.wire, s.links[p]);
        ReceiverKeepsWithMoreFrames(s.frames, frame, s.links[p].receiver);
      }
    }
  }

  lemma SendStep(s: State)
    requires Invariant(s) && s.phase.Sending? && s.phase.next < TotalFragments(|s.phase.frame|)
    ensures Invariant(Broadcast(s))
  {
    hide SenderInvariant, LinkInvariant;
    var s' := Broadcast(s);
    assert DiscoveryInvariant(s');
    if Numbered(s.frames) {
      SenderSends(s);
      forall p | p in s'.links ensures LinkInvariant(s'.frames, s'.wire, s'.links[p]) {
        LinkSent(s.frames, s.wire, s.links[p], FragmentAt(s.frameSeq, s.phase.frame, s.phase.next));
      }
    }
  }

  lemma SenderSends(s: State)
    requires Numbered(s.frames) && SenderInvariant(s)
    requires s.phase.Sending? && s.phase.next < TotalFragments(|s.phase.frame|)
    ensures SenderInvariant(Broadcast(s))
  {
    hide WireAt, Emitted, FragmentsOf, FragmentAt, TotalFragments;
    WireGrowsByOne(s.frames, CursorFrame(s), CursorIndex(s));
  }

  lemma LinkSent(frames: seq<seq<byte>>, wire: seq<Fragment>, link: Link, f: Fragment)
    requires LinkInvariant(frames, wire, link)
    ensures LinkInvariant(frames, wire + [f], SentTo(link, f))
  {
    hide ReceiverInvariant;
    assert (wire + [f])[link.joined..] == wire[link.joined..] + [f];
    assert multiset(link.sent + [f]) == multiset(link.sent) + multiset{f};
  }

  lemma EndStep(s: State, s': State)
    requires Invariant(s) && Next(s, EndFrame, s')
    ensures Invariant(s')
  {
    hide LinkInvariant, WireAt, Emitted, FragmentsOf, FragmentAt, TotalFragments;
    if Numbered(s.frames) {
      NextFrameSameWire(s.frames, CursorFrame(s) + 1);
      forall p | p in s'.links ensures LinkInvariant(s'.frames, s'.wire, s'.links[p]) {
        assert LinkInvariant(s.frames, s.wire, s.links[p]);
      }
    }
  }

  /** A fragment in flight is genuine and has not been delivered. */
  lemma InFlightIsNew(frames: seq<seq<byte>>, k: nat, i: nat, link: Link, f: Fragment)
    requires IsCursor(frames, k, i) && LinkInvariant(frames, WireAt(frames, k, i), link) && f in link.inFlight
    ensures Genuine(frames, f) && f !in link.receiver.delivered
  {
    hide WireAt, ReceiverInvariant;
    var wire := WireAt(frames, k, i);
    WireInPlace(frames, k, i);
    assert f in multiset(link.sent);
    var p :| 0 <= p < |link.sent| && link.sent[p] == f;
    assert wire[link.joined + p] == f && InPlace(frames, wire, link.joined + p);
    assert Distinct(link.sent) by {
      assert forall j :: 0 <= j < |link.sent| ==> link.sent[j] == wire[link.joined + j];
    }
    OnlyUnderWay(link.sent, link.receiver.delivered, link.inFlight, f);
  }

  lemma OnlyUnderWay(sent: seq<Fragment>, delivered: seq<Fragment>, inFlight: multiset<Fragment>, f: Fragment)
    requires Distinct(sent) && multiset(delivered) + inFlight <= multiset(sent) && f in inFlight
    ensures f !in delivered
  {
    OnceInSequence(sent, f);
    assert (multiset(delivered) + inFlight)[f] <= multiset(sent)[f] <= 1;
    assert f in delivered <==> multiset(delivered)[f] > 0;
  }

  lemma {:induction false} OnceInSequence(s: seq<Fragment>, f: Fragment)
    requires Distinct(s)
    ensures multiset(s)[f] <= 1
  {
    if s != [] {
      var front, x := s[..|s| - 1], s[|s| - 1];
      OnceInSequence(front, f);
      assert s == front + [x];
      assert x !in front;
    }
  }

  lemma DeliverStep(s: State, to: Peer, f: Fragment, s': State)
    requires Invariant(s) && Next(s, Deliver(to, f), s')
    ensures Invariant(s')
  {
    hide ReceiverInvariant;
    if Numbered(s.frames) {
      assert LinkInvariant(s.frames, s.wire, s.links[to]);
      LinkDelivered(s.frames, CursorFrame(s), CursorIndex(s), s.links[to], f, s'.links[to].receiver);
    }
    OneLinkChanged(s, to, s'.links[to]);
  }

  lemma OneLinkChanged(s: State, to: Peer, link: Link)
    requires Invariant(s) && to in s.links
    requires Numbered(s.frames) ==> LinkInvariant(s.frames, s.wire, link)
    ensures Invariant(s.(links := s.links[to := link]))
  {
    hide LinkInvariant, SenderInvariant;
    if Numbered(s.frames) {
      SenderSame(s, s.(links := s.links[to := link]));
    }
  }

  lemma LinkDelivered(frames: seq<seq<byte>>, k: nat, i: nat, link: Link, f: Fragment, receiver: Receiver)
    requires IsCursor(frames, k, i) && LinkInvariant(frames, WireAt(frames, k, i), link) && f in link.inFlight
    requires Receives(link.receiver, f, receiver)
    ensures LinkInvariant(frames, WireAt(frames, k, i),
                          link.(inFlight := link.inFlight - multiset{f}, receiver := receiver))
  {
    InFlightIsNew(frames, k, i, link, f);
    ReceiverStep(frames, link.receiver, f, receiver);
    assert multiset(receiver.delivered) == multiset(link.receiver.delivered) + multiset{f};
  }

  lemma LoseStep(s: State, to: Peer, f: Fragment, s': State)
    requires Invariant(s) && Next(s, Lose(to, f), s')
    ensures Invariant(s')
  {
    hide ReceiverInvariant;
    if Numbered(s.frames) {
      LinkLost(s.frames, s.wire, s.links[to], f);
    }
    OneLinkChanged(s, to, s'.links[to]);
  }

  lemma LinkLost(frames: seq<seq<byte>>, wire: seq<Fragment>, link: Link, f: Fragment)
    requires LinkInvariant(frames, wire, link)
    ensures LinkInvariant(frames, wire, link.(inFlight := link.inFlight - multiset{f}))
  {
    hide ReceiverInvariant;
  }

  /** Every state of every run satisfies the invariant. */
  lemma {:induction false} InvariantHolds(trace: seq<State>, es: seq<Event>, n: nat)
    requires IsRun(trace, es) && trace[0] == INIT && n <= |es|
    ensures Invariant(trace[n])
  {
    if n == 0 {
      assert WireAt([], 0, 0) == [];
    } else {
      InvariantHolds(trace, es, n - 1);
      InvariantStep(trace[n - 1], es[n - 1], trace[n]);
    }
  }

  lemma ReachableInvariant(s: State)
    requires Reachable(s)
    ensures Invariant(s)
  {
    var es :| Runs(INIT, es, s);
    var trace :| IsRun(trace, es) && trace[0] == INIT && trace[|es|] == s;
    InvariantHolds(trace, es, |es|);
  }
}

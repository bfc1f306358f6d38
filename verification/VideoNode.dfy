/** The sending loop and the discovery loop as programs over the shared peer list (Online_AV/Online_AV.cpp,
    VideoRecandSend and LookForPeers), proved against the state machine of module VideoSystem. */
module VideoNode {
  import opened Basics
  import opened Fragmentation
  import opened VideoSystem

  /** A call of sendto. */
  datatype Datagram = Datagram(to: Peer, fragment: Fragment)

  datatype Message = Message(bytes: seq<byte>, from: Peer)

  function AddressedTo(outbox: seq<Datagram>, p: Peer): seq<Fragment> {
    if outbox == [] then [] else
      AddressedTo(outbox[..|outbox| - 1], p)
      + (if outbox[|outbox| - 1].to == p then [outbox[|outbox| - 1].fragment] else [])
  }

  function HearAll(messages: seq<Message>): seq<Event> {
    seq(|messages|, k requires 0 <= k < |messages| => Hear(messages[k].bytes, messages[k].from))
  }

  /** The fragments of a frame, each preceded by the messages the discovery thread handled just before the sender
      took the lock for it. */
  function Interleaved(arrivals: seq<seq<Message>>): seq<Event> {
    if arrivals == [] then [] else
      Interleaved(arrivals[..|arrivals| - 1]) + HearAll(arrivals[|arrivals| - 1]) + [SendFragment]
  }

  class Node {
    var peers: seq<Peer>
    var frameSeq: uint32
    var outbox: seq<Datagram>
    ghost var world: State

    ghost predicate Valid()
      reads this
    {
      && Reachable(world)
      && peers == world.peers
      && frameSeq == world.frameSeq
      && forall p :: AddressedTo(outbox, p) == SentSoFar(world, p)
    }

    constructor ()
      ensures Valid() && world == INIT && outbox == []
    {
      peers, frameSeq, outbox, world := [], 0, [], INIT;
      new;
      RunsNowhere(INIT);
      assert AddressedTo([], Peer(0, 0)) == [];
    }

    /** The body of the discovery loop: `message` is what recvfrom delivered, empty if it failed. */
    method OnMessage(message: Message)
      requires Valid()
      modifies this
      ensures Valid() && outbox == old(outbox)
      ensures Next(old(world), Hear(message.bytes, message.from), world)
      ensures peers == old(peers) + if IsHello(message.bytes) && message.from !in old(peers) then [message.from] else []
    {
      if |message.bytes| > 0 && IsHello(message.bytes) {
        var it := 0;
        while it < |peers| && peers[it] != message.from
          invariant 0 <= it <= |peers|
          invariant message.from !in peers[..it]
        {
          it := it + 1;
        }
        assert it == |peers| <==> message.from !in peers by {
          assert peers[..|peers|] == peers;
        }
        if it == |peers| {
          peers := peers + [message.from];
        }
      }
      HearKeepsSent(world, message.bytes, message.from);
      ReachableStep(world, Hear(message.bytes, message.from), Heard(world, message.bytes, message.from));
      world := Heard(world, message.bytes, message.from);
    }

    method OnMessages(messages: seq<Message>, ghost start: State, ghost es: seq<Event>)
      requires Valid() && Runs(start, es, world)
      modifies this
      ensures Valid() && outbox == old(outbox) && Runs(start, es + HearAll(messages), world)
      ensures world.phase == old(world.phase) && world.wire == old(world.wire) && world.frames == old(world.frames)
      ensures frameSeq == old(frameSeq) && old(peers) <= peers
      ensures forall p :: p in peers <==> p in old(peers) || HeardFrom(messages, p)
    {
      assert es + HearAll([]) == es;
      assert messages[..0] == [];
      for k := 0 to |messages|
        invariant Valid() && outbox == old(outbox) && Runs(start, es + HearAll(messages[..k]), world)
        invariant world.phase == old(world.phase) && world.wire == old(world.wire)
        invariant world.frames == old(world.frames) && frameSeq == old(frameSeq) && old(peers) <= peers
        invariant forall p :: p in peers <==> p in old(peers) || HeardFrom(messages[..k], p)
      {
        ghost var before := world;
        HeardOneMore(messages, k);
        OnMessage(messages[k]);
        var e := Hear(messages[k].bytes, messages[k].from);
        RunsExtend(start, es + HearAll(messages[..k]), before, e, world);
        assert es + HearAll(messages[..k]) + [e] == es + HearAll(messages[..k + 1]);
      }
      assert messages[..|messages|] == messages;
    }

    /** One fragment under the lock: built, then sent to every peer in the list, in list order. */
    method SendOne(frame: seq<byte>, i: uint32, total: uint32)
      requires Valid() && world.phase == Sending(frame, i)
      requires total == TotalFragments(|frame|) && i < total
      modifies this
      ensures Valid() && Next(old(world), SendFragment, world)
      ensures peers == old(peers) && frameSeq == old(frameSeq)
      ensures old(outbox) <= outbox && |outbox| == |old(outbox)| + |peers|
      ensures forall k :: 0 <= k < |peers| ==>
        outbox[|old(outbox)| + k] == Datagram(peers[k], FragmentAt(frameSeq, frame, i))
      ensures forall p :: AddressedTo(outbox, p) == AddressedTo(old(outbox), p) + SentNow(peers, frameSeq, frame, i, p)
    {
      hide AddressedTo, ToEach, Reachable, FragmentsOf, FragmentAt, TotalFragments;
      var fragment := BuildFragment(frameSeq, frame, i, total);
      ghost var before := outbox;
      ToEachNone(before, peers, fragment);
      for k := 0 to |peers|
        modifies this`outbox
        invariant outbox == before + ToEach(peers[..k], fragment)
      {
        outbox := outbox + [Datagram(peers[k], fragment)];
        ToEachNext(before, peers, fragment, k);
      }
      assert peers[..|peers|] == peers;
      PassIsBroadcast(world, before, frame, i, fragment);
      ReachableStep(world, SendFragment, Broadcast(world));
      world := Broadcast(world);
    }

    /** One iteration over the fragments of a frame: the discovery thread may run, then the fragment goes out. */
    method SendRound(frame: seq<byte>, arrivals: seq<seq<Message>>, i: uint32, ghost start: State,
                     ghost head: seq<Event>)
      requires Valid() && world.phase == Sending(frame, i)
      requires |arrivals| == TotalFragments(|frame|) && i < |arrivals|
      requires Runs(start, head + Interleaved(arrivals[..i]), world)
      modifies this
      ensures Valid() && world.phase == Sending(frame, i + 1)
      ensures frameSeq == old(frameSeq) && world.frames == old(world.frames)
      ensures world.wire == old(world.wire) + [FragmentAt(frameSeq, frame, i)]
      ensures Runs(start, head + Interleaved(arrivals[..i + 1]), world)
      ensures forall p :: p in peers <==> p in old(peers) || HeardFrom(arrivals[i], p)
      ensures forall p :: AddressedTo(outbox, p) == AddressedTo(old(outbox), p) + SentNow(peers, frameSeq, frame, i, p)
    {
      OnMessages(arrivals[i], start, head + Interleaved(arrivals[..i]));
      ghost var before := world;
      SendOne(frame, i, |arrivals|);
      RunsExtend(start, head + Interleaved(arrivals[..i]) + HearAll(arrivals[i]), before, SendFragment, world);
      InterleavedStep(arrivals, i, head);
    }

    /** One round of the sending loop for an encoded frame, the discovery thread running in between. Whatever it
        adds to the list meanwhile, all fragments of the frame go out once, in order, and every peer is sent those
        from the round on in which it was first heard, all if it was known before. */
    method SendFrame(frame: seq<byte>, arrivals: seq<seq<Message>>)
      requires Valid() && world.phase.Idle? && |arrivals| == TotalFragments(|frame|)
      modifies this
      ensures Valid() && world.phase.Idle?
      ensures Runs(old(world), [BeginFrame(frame)] + Interleaved(arrivals) + [EndFrame], world)
      ensures world.frames == old(world.frames) + [frame]
      ensures world.wire == old(world.wire) + FragmentsOf(old(frameSeq), frame)
      ensures forall p ::
        p in peers <==> p in old(peers) || exists i :: 0 <= i < |arrivals| && HeardFrom(arrivals[i], p)
      ensures var fs := FragmentsOf(old(frameSeq), frame);
        forall p :: AddressedTo(outbox, p) == AddressedTo(old(outbox), p) + fs[FirstRound(old(peers), arrivals, p)..]
    {
      hide Runs, Reachable, Next, AddressedTo, Interleaved, HeardFrom, Reached, FirstRound;
      hide FragmentsOf, FragmentAt, TotalFragments;
      ghost var start := world;
      var total := TotalFragments(|frame|);
      world := world.(phase := Sending(frame, 0), frames := world.frames + [frame]);
      BeginRuns(start, frame, arrivals, world);
      ghost var head, known, before := [BeginFrame(frame)], peers, outbox;
      NobodyReached(known, outbox, arrivals, start.frameSeq, frame);
      var i := 0;
      while i < total
        invariant 0 <= i <= total
        invariant Valid() && world.phase == Sending(frame, i) && frameSeq == start.frameSeq
        invariant Runs(start, head + Interleaved(arrivals[..i]), world)
        invariant world.frames == start.frames + [frame]
        invariant world.wire == start.wire + FirstFragments(start.frameSeq, frame, i)
        invariant Reached(known, before, peers, outbox, arrivals, start.frameSeq, frame, i)
      {
        ghost var listed, sent := peers, outbox;
        SendRound(frame, arrivals, i, start, head);
        FirstFragmentsStep(start.wire, start.frameSeq, frame, i);
        OneMoreReached(known, before, listed, sent, peers, outbox, arrivals, start.frameSeq, frame, i);
        i := i + 1;
      }
      ghost var ended := world.(phase := Idle, frameSeq := (world.frameSeq + 1) % TWO_32);
      EndRuns(start, frame, arrivals, world, ended);
      AllReached(known, before, peers, outbox, arrivals, start.frameSeq, frame);
      world := ended;
      frameSeq := (frameSeq + 1) % TWO_32;
    }
  }

  /** Fragment `i` for each peer in the list. */
  function SentNow(peers: seq<Peer>, q: uint32, frame: seq<byte>, i: nat, p: Peer): seq<Fragment>
    requires i < TotalFragments(|frame|)
  {
    if p in peers then [FragmentAt(q, frame, i)] else []
  }

  /** A HELLO from the peer is among the messages. */
  ghost predicate HeardFrom(messages: seq<Message>, p: Peer) {
    exists k :: 0 <= k < |messages| && IsHello(messages[k].bytes) && messages[k].from == p
  }

  lemma HeardOneMore(messages: seq<Message>, k: nat)
    requires k < |messages|
    ensures forall p :: HeardFrom(messages[..k + 1], p) <==>
      HeardFrom(messages[..k], p) || (IsHello(messages[k].bytes) && messages[k].from == p)
  {
    hide IsHello;
    var longer, shorter := messages[..k + 1], messages[..k];
    assert longer[k] == messages[k];
    forall p
      ensures HeardFrom(longer, p) <==> HeardFrom(shorter, p) || (IsHello(longer[k].bytes) && longer[k].from == p)
    {
      if HeardFrom(shorter, p) {
        var j :| 0 <= j < k && IsHello(shorter[j].bytes) && shorter[j].from == p;
        assert longer[j] == shorter[j];
      }
      if HeardFrom(longer, p) {
        var j :| 0 <= j < k + 1 && IsHello(longer[j].bytes) && longer[j].from == p;
        assert j < k ==> shorter[j] == longer[j];
      }
    }
  }

  /** The round in which a peer is first in the list: the first one for those known before, none for those not heard. */
  ghost function FirstRound(known: seq<Peer>, arrivals: seq<seq<Message>>, p: Peer): (r: nat)
    ensures r <= |arrivals|
    ensures p in known ==> r == 0
    ensures p !in known ==> forall i :: 0 <= i < r ==> !HeardFrom(arrivals[i], p)
    ensures p !in known && r < |arrivals| ==> HeardFrom(arrivals[r], p)
  {
    if p in known || arrivals == [] || HeardFrom(arrivals[0], p) then 0
    else 1 + FirstRound(known, arrivals[1..], p)
  }

  /** After `i` rounds: who is listed, and what each peer was sent since. */
  ghost predicate Reached(known: seq<Peer>, before: seq<Datagram>, peers: seq<Peer>, outbox: seq<Datagram>,
                          arrivals: seq<seq<Message>>, q: uint32, frame: seq<byte>, i: nat)
  {
    && i <= TotalFragments(|frame|)
    && forall p :: ReachedAt(known, before, peers, outbox, arrivals, q, frame, i, p)
  }

  ghost predicate ReachedAt(known: seq<Peer>, before: seq<Datagram>, peers: seq<Peer>, outbox: seq<Datagram>,
                            arrivals: seq<seq<Message>>, q: uint32, frame: seq<byte>, i: nat, p: Peer)
    requires i <= TotalFragments(|frame|)
  {
    var r := FirstRound(known, arrivals, p);
    && (p in peers <==> p in known || r < i)
    && AddressedTo(outbox, p) == AddressedTo(before, p) + FragmentsOf(q, frame)[Min(i, r)..i]
  }

  lemma NobodyReached(known: seq<Peer>, outbox: seq<Datagram>, arrivals: seq<seq<Message>>, q: uint32, frame: seq<byte>)
    ensures Reached(known, outbox, known, outbox, arrivals, q, frame, 0)
  {
    forall p ensures ReachedAt(known, outbox, known, outbox, arrivals, q, frame, 0, p) {
      assert FragmentsOf(q, frame)[0..0] == [];
    }
  }

  lemma OneMoreReached(known: seq<Peer>, before: seq<Datagram>, peers: seq<Peer>, outbox: seq<Datagram>,
                       peers': seq<Peer>, outbox': seq<Datagram>,
                       arrivals: seq<seq<Message>>, q: uint32, frame: seq<byte>, i: nat)
    requires Reached(known, before, peers, outbox, arrivals, q, frame, i)
    requires i < TotalFragments(|frame|) == |arrivals|
    requires forall p :: p in peers' <==> p in peers || HeardFrom(arrivals[i], p)
    requires forall p ::
      AddressedTo(outbox', p) == AddressedTo(outbox, p) + SentNow(peers', q, frame, i, p)
    ensures Reached(known, before, peers', outbox', arrivals, q, frame, i + 1)
  {
    hide AddressedTo, HeardFrom, FragmentAt, TotalFragments;
    var next := i + 1;
    forall p ensures ReachedAt(known, before, peers', outbox', arrivals, q, frame, next, p) {
      assert ReachedAt(known, before, peers, outbox, arrivals, q, frame, i, p);
      SliceGrows(FragmentsOf(q, frame), Min(i, FirstRound(known, arrivals, p)), i);
    }
  }

  lemma SliceGrows(fs: seq<Fragment>, from: nat, i: nat)
    requires from <= i < |fs|
    ensures fs[from..i] + [fs[i]] == fs[from..i + 1] && fs[i..i] == fs[i + 1..i + 1] == []
  {
  }

  lemma AllReached(known: seq<Peer>, before: seq<Datagram>, peers: seq<Peer>, outbox: seq<Datagram>,
                   arrivals: seq<seq<Message>>, q: uint32, frame: seq<byte>)
    requires Reached(known, before, peers, outbox, arrivals, q, frame, |arrivals|)
    requires |arrivals| == TotalFragments(|frame|)
    ensures forall p :: p in peers <==> p in known || exists i :: 0 <= i < |arrivals| && HeardFrom(arrivals[i], p)
    ensures forall p ::
      AddressedTo(outbox, p) == AddressedTo(before, p) + FragmentsOf(q, frame)[FirstRound(known, arrivals, p)..]
  {
    hide AddressedTo, HeardFrom, TotalFragments;
    var fs := FragmentsOf(q, frame);
    forall p
      ensures p in peers <==> p in known || exists i :: 0 <= i < |arrivals| && HeardFrom(arrivals[i], p)
      ensures AddressedTo(outbox, p) == AddressedTo(before, p) + fs[FirstRound(known, arrivals, p)..]
    {
      assert ReachedAt(known, before, peers, outbox, arrivals, q, frame, |arrivals|, p);
      var r := FirstRound(known, arrivals, p);
      assert fs[r..|arrivals|] == fs[r..];
    }
  }

  ghost function FirstFragments(q: uint32, frame: seq<byte>, i: nat): seq<Fragment>
    requires i <= TotalFragments(|frame|)
  {
    FragmentsOf(q, frame)[..i]
  }

  lemma FirstFragmentsStep(wire: seq<Fragment>, q: uint32, frame: seq<byte>, i: nat)
    requires i < TotalFragments(|frame|)
    ensures wire + FirstFragments(q, frame, i) + [FragmentAt(q, frame, i)] == wire + FirstFragments(q, frame, i + 1)
  {
  }

  ghost function SentSoFar(s: State, p: Peer): seq<Fragment> {
    if p in s.links then s.links[p].sent else []
  }

  function ToEach(peers: seq<Peer>, f: Fragment): seq<Datagram> {
    seq(|peers|, k requires 0 <= k < |peers| => Datagram(peers[k], f))
  }

  lemma AllFragments(q: uint32, frame: seq<byte>)
    ensures FirstFragments(q, frame, TotalFragments(|frame|)) == FragmentsOf(q, frame)
  {
  }

  lemma BeginRuns(s: State, frame: seq<byte>, arrivals: seq<seq<Message>>, s': State)
    requires Reachable(s) && s.phase.Idle?
    requires s' == s.(phase := Sending(frame, 0), frames := s.frames + [frame])
    ensures Reachable(s') && Runs(s, [BeginFrame(frame)] + Interleaved(arrivals[..0]), s')
    ensures s'.wire == s.wire + FirstFragments(s.frameSeq, frame, 0)
    ensures forall p :: SentSoFar(s', p) == SentSoFar(s, p)
  {
    assert Next(s, BeginFrame(frame), s');
    ReachableStep(s, BeginFrame(frame), s');
    RunsNowhere(s);
    RunsExtend(s, [], s, BeginFrame(frame), s');
    assert [] + [BeginFrame(frame)] == [BeginFrame(frame)] + Interleaved(arrivals[..0]);
  }

  lemma EndRuns(start: State, frame: seq<byte>, arrivals: seq<seq<Message>>, s: State, s': State)
    requires Reachable(s) && |arrivals| == TotalFragments(|frame|) && s.phase == Sending(frame, |arrivals|)
    requires s' == s.(phase := Idle, frameSeq := (s.frameSeq + 1) % TWO_32)
    requires Runs(start, [BeginFrame(frame)] + Interleaved(arrivals[..|arrivals|]), s)
    requires s.wire == start.wire + FirstFragments(start.frameSeq, frame, |arrivals|)
    ensures Reachable(s') && Runs(start, [BeginFrame(frame)] + Interleaved(arrivals) + [EndFrame], s')
    ensures s'.wire == start.wire + FragmentsOf(start.frameSeq, frame)
    ensures forall p :: SentSoFar(s', p) == SentSoFar(s, p)
  {
    hide Runs, Reachable, Interleaved, TotalFragments, FragmentsOf;
    assert arrivals[..|arrivals|] == arrivals;
    assert Next(s, EndFrame, s');
    AllFragments(start.frameSeq, frame);
    ReachableStep(s, EndFrame, s');
    RunsExtend(start, [BeginFrame(frame)] + Interleaved(arrivals), s, EndFrame, s');
  }

  lemma HearKeepsSent(s: State, message: seq<byte>, from: Peer)
    requires Reachable(s)
    ensures forall p :: SentSoFar(Heard(s, message, from), p) == SentSoFar(s, p)
  {
    ReachableInvariant(s);
  }

  lemma ToEachOneMore(outbox: seq<Datagram>, peers: seq<Peer>, f: Fragment)
    requires peers != []
    ensures var longer, front := outbox + ToEach(peers, f), peers[..|peers| - 1];
      longer != [] && longer[..|longer| - 1] == outbox + ToEach(front, f)
      && longer[|longer| - 1] == Datagram(peers[|peers| - 1], f)
  {
  }

  lemma {:induction false} AddressedToEach(outbox: seq<Datagram>, peers: seq<Peer>, f: Fragment, p: Peer)
    requires Distinct(peers)
    ensures AddressedTo(outbox + ToEach(peers, f), p) == AddressedTo(outbox, p) + if p in peers then [f] else []
  {
    if peers == [] {
      assert outbox + ToEach(peers, f) == outbox;
    } else {
      var front, last := peers[..|peers| - 1], peers[|peers| - 1];
      AddressedToEach(outbox, front, f, p);
      ToEachOneMore(outbox, peers, f);
      assert peers == front + [last] && last !in front;
    }
  }

  lemma ToEachNone(before: seq<Datagram>, peers: seq<Peer>, f: Fragment)
    ensures before + ToEach(peers[..0], f) == before
  {
  }

  lemma ToEachNext(before: seq<Datagram>, peers: seq<Peer>, f: Fragment, k: nat)
    requires k < |peers|
    ensures before + ToEach(peers[..k], f) + [Datagram(peers[k], f)] == before + ToEach(peers[..k + 1], f)
  {
    assert ToEach(peers[..k + 1], f) == ToEach(peers[..k], f) + [Datagram(peers[k], f)];
  }

  /** Because the list has no duplicates, one pass over it sends each peer one copy. */
  lemma PassIsBroadcast(s: State, before: seq<Datagram>, frame: seq<byte>, i: nat, f: Fragment)
    requires Reachable(s) && s.phase == Sending(frame, i) && i < TotalFragments(|frame|)
    requires f == FragmentAt(s.frameSeq, frame, i) && forall p :: AddressedTo(before, p) == SentSoFar(s, p)
    ensures var outbox := before + ToEach(s.peers, f);
      && before <= outbox && |outbox| == |before| + |s.peers|
      && (forall k :: 0 <= k < |s.peers| ==> outbox[|before| + k] == Datagram(s.peers[k], f))
      && (forall p :: AddressedTo(outbox, p) == AddressedTo(before, p) + SentNow(s.peers, s.frameSeq, frame, i, p))
      && (forall p :: AddressedTo(outbox, p) == SentSoFar(Broadcast(s), p))
  {
    hide FragmentAt, TotalFragments, AddressedTo;
    assert DiscoveryInvariant(s) by { ReachableInvariant(s); }
    forall p
      ensures AddressedTo(before + ToEach(s.peers, f), p)
        == AddressedTo(before, p) + SentNow(s.peers, s.frameSeq, frame, i, p)
      ensures AddressedTo(before + ToEach(s.peers, f), p) == SentSoFar(Broadcast(s), p)
    {
      AddressedToEach(before, s.peers, f, p);
    }
  }

  lemma InterleavedStep(arrivals: seq<seq<Message>>, i: nat, head: seq<Event>)
    requires i < |arrivals|
    ensures head + Interleaved(arrivals[..i]) + HearAll(arrivals[i]) + [SendFragment]
      == head + Interleaved(arrivals[..i + 1])
  {
    assert arrivals[..i + 1][..i] == arrivals[..i];
  }
}

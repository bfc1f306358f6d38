/** What holds in every reachable state of the video system: integrity of the frames shown, the exact completion
    condition, what a peer that joins in the middle of a frame gets, and the discovery list. */
module VideoRuns {
  import opened Basics
  import opened Fragmentation
  import opened Reassembly
  import opened VideoSystem

  /** End-to-end integrity: whatever the network loses, delays or reorders, each frame shown at a peer is the frame
      encoded under that number, byte for byte (and, if its count overflowed 32 bits, the prefix that was sent). */
  lemma FrameIntegrity(s: State, p: Peer, n: nat)
    requires Reachable(s) && Numbered(s.frames) && p in s.links
    requires n < |s.links[p].receiver.shown|
    ensures var output := s.links[p].receiver.shown[n];
      && output.frameSeq < |s.frames|
      && output.bytes == SentBytes(s.frames[output.frameSeq])
      && (output.bytes == s.frames[output.frameSeq] <==> Fits(s.frames[output.frameSeq]))
  {
    ReachableInvariant(s);
    assert LinkInvariant(s.frames, s.wire, s.links[p]);
    var q := s.links[p].receiver.shown[n].frameSeq;
    assert q < |s.frames|;
    FragmentsCarryFrame(q, s.frames[q]);
  }

  /** A frame is shown at a peer if and only if its last-flagged fragment arrived after all its others, and then
      once; any other frame's fragments are in the buffer, all of them, in order of arrival. */
  lemma ShownExactly(s: State, p: Peer, q: uint32)
    requires Reachable(s) && Numbered(s.frames) && p in s.links && q < |s.frames|
    ensures var r := s.links[p].receiver;
      && Distinct(FrameNumbers(r.shown))
      && ((exists k :: 0 <= k < |r.shown| && r.shown[k].frameSeq == q) <==>
            LastAfterAllOthers(s.frames, r.delivered, q))
      && Held(r.buffer, q)
         == (if LastAfterAllOthers(s.frames, r.delivered, q) then [] else OfFrame(r.delivered, q))
  {
    ReachableInvariant(s);
    assert LinkInvariant(s.frames, s.wire, s.links[p]);
    var r := s.links[p].receiver;
    hide LinkInvariant, DiscoveryInvariant, SenderInvariant, LastAfterAllOthers;
    ExactCompletion(s.frames, r.delivered);
    NumberShown(r.shown, q);
    assert IsBacklog(r, q);
  }

  lemma NumberShown(shown: seq<Output>, q: uint32)
    ensures q in FrameNumbers(shown) <==> exists k :: 0 <= k < |shown| && shown[k].frameSeq == q
  {
    if q in FrameNumbers(shown) {
      var k :| 0 <= k < |shown| && FrameNumbers(shown)[k] == q;
      assert shown[k].frameSeq == q;
    }
    forall k | 0 <= k < |shown| && shown[k].frameSeq == q ensures q in FrameNumbers(shown) {
      assert FrameNumbers(shown)[k] == q;
    }
  }

  /** At every step of every run, however long, each fragment delivered is in the buffer under its own frame number
      or was consumed by a reassembly. */
  lemma {:induction false} FragmentsConserved(trace: seq<State>, es: seq<Event>, n: nat, p: Peer)
    requires IsRun(trace, es) && trace[0] == INIT && n <= |es| && p in trace[n].links
    ensures Conserves(trace[n].links[p].receiver)
  {
    var s, s', e := trace[n - 1], trace[n], es[n - 1];
    assert Next(s, e, s');
    if p in s.links {
      FragmentsConserved(trace, es, n - 1, p);
      if e.Deliver? && e.to == p {
        ConservationStep(s.links[p].receiver, e.f, s'.links[p].receiver);
      }
      if e.Hear? {
        InvariantHolds(trace, es, n - 1);
      }
    }
  }

  lemma {:induction false} OfFrameCount(h: seq<Fragment>, f: Fragment)
    ensures multiset(OfFrame(h, f.frameSeq))[f] == multiset(h)[f]
  {
    if h != [] {
      var front, last := h[..|h| - 1], h[|h| - 1];
      OfFrameCount(front, f);
      assert h == front + [last];
    }
  }

  /** The fragments consumed are those of the frames shown, all of them; the buffer holds all others. */
  lemma ConsumedIffShown(s: State, p: Peer, f: Fragment)
    requires Reachable(s) && Numbered(s.frames) && p in s.links
    ensures var r := s.links[p].receiver;
      && multiset(r.consumed)[f]
         == (if f.frameSeq in FrameNumbers(r.shown) then multiset(r.delivered)[f] else 0)
      && multiset(Held(r.buffer, f.frameSeq))[f]
         == (if f.frameSeq in FrameNumbers(r.shown) then 0 else multiset(r.delivered)[f])
  {
    ReachableInvariant(s);
    assert LinkInvariant(s.frames, s.wire, s.links[p]);
    var r := s.links[p].receiver;
    assert ConservesCount(r, f) && IsBacklog(r, f.frameSeq);
    OfFrameCount(r.delivered, f);
  }

  // ---------------------------------------------------------------- what happens to each datagram

  /** The fragments that the network lost on the way to a peer. */
  function LostTo(es: seq<Event>, p: Peer): seq<Fragment> {
    if es == [] then [] else
      var e := es[|es| - 1];
      LostTo(es[..|es| - 1], p) + if e.Lose? && e.to == p then [e.f] else []
  }

  ghost predicate Accounts(s: State, p: Peer, lost: seq<Fragment>) {
    if p in s.links then
      multiset(s.links[p].receiver.delivered) + s.links[p].inFlight + multiset(lost) == multiset(s.links[p].sent)
    else lost == []
  }

  /** Along every run, each datagram addressed to a peer is delivered, under way or lost, and is one of these only. */
  lemma {:induction false} EveryDatagramAccounted(trace: seq<State>, es: seq<Event>, n: nat, p: Peer)
    requires IsRun(trace, es) && trace[0] == INIT && n <= |es|
    ensures p in trace[n].links ==>
      var link := trace[n].links[p];
      multiset(link.receiver.delivered) + link.inFlight + multiset(LostTo(es[..n], p)) == multiset(link.sent)
    ensures p !in trace[n].links ==> LostTo(es[..n], p) == []
  {
    hide Next;
    if n > 0 {
      EveryDatagramAccounted(trace, es, n - 1, p);
      assert DiscoveryInvariant(trace[n - 1]) by { InvariantHolds(trace, es, n - 1); }
      assert es[..n][..n - 1] == es[..n - 1];
      AccountStep(trace[n - 1], es[n - 1], trace[n], p, LostTo(es[..n - 1], p));
    }
  }

  lemma AccountStep(s: State, e: Event, s': State, p: Peer, lost: seq<Fragment>)
    requires DiscoveryInvariant(s) && Next(s, e, s') && Accounts(s, p, lost)
    ensures Accounts(s', p, lost + if e.Lose? && e.to == p then [e.f] else [])
  {
    hide IsHello, Receives, DiscoveryInvariant, Accounts, Register, SentTo, FragmentAt;
    match e
    case Hear(message, from) => AccountHear(s, message, from, p, lost);
    case SendFragment => AccountSend(s, p, lost);
    case Deliver(to, f) => AccountDeliver(s, to, f, s', p, lost);
    case Lose(to, f) => AccountLose(s, to, f, s', p, lost);
    case _ => AccountSame(s, s', p, lost);
  }

  lemma AccountSame(s: State, s': State, p: Peer, lost: seq<Fragment>)
    requires Accounts(s, p, lost) && s'.links == s.links
    ensures Accounts(s', p, lost + [])
  {
    assert lost + [] == lost;
  }

  lemma AccountLose(s: State, to: Peer, f: Fragment, s': State, p: Peer, lost: seq<Fragment>)
    requires Next(s, Lose(to, f), s') && Accounts(s, p, lost)
    ensures Accounts(s', p, lost + if to == p then [f] else [])
  {
    assert multiset(lost + [f]) == multiset(lost) + multiset{f};
  }

  lemma AccountHear(s: State, message: seq<byte>, from: Peer, p: Peer, lost: seq<Fragment>)
    requires DiscoveryInvariant(s) && Accounts(s, p, lost)
    ensures Accounts(Heard(s, message, from), p, lost + [])
  {
  }

  lemma AccountSend(s: State, p: Peer, lost: seq<Fragment>)
    requires s.phase.Sending? && s.phase.next < TotalFragments(|s.phase.frame|) && Accounts(s, p, lost)
    ensures Accounts(Broadcast(s), p, lost + [])
  {
    if p in s.links {
      var f := FragmentAt(s.frameSeq, s.phase.frame, s.phase.next);
      assert multiset(s.links[p].sent + [f]) == multiset(s.links[p].sent) + multiset{f};
    }
  }

  lemma AccountDeliver(s: State, to: Peer, f: Fragment, s': State, p: Peer, lost: seq<Fragment>)
    requires Next(s, Deliver(to, f), s') && Accounts(s, p, lost)
    ensures Accounts(s', p, lost + [])
  {
    hide Reassembles;
    if p == to {
      var delivered := s.links[p].receiver.delivered;
      assert multiset(delivered + [f]) == multiset(delivered) + multiset{f};
    }
  }

  /** Any datagram under way can be the next to arrive. */
  lemma CanDeliver(s: State, p: Peer, f: Fragment) returns (s': State)
    requires p in s.links && f in s.links[p].inFlight
    ensures Next(s, Deliver(p, f), s')
    ensures s' == s.(links := s'.links) && p in s'.links && s'.links[p].sent == s.links[p].sent
    ensures s'.links[p].receiver.delivered == s.links[p].receiver.delivered + [f]
    ensures s'.links[p].inFlight == s.links[p].inFlight - multiset{f} && s'.links[p].joined == s.links[p].joined
  {
    var link := s.links[p];
    var receiver := CanReceive(link.receiver, f);
    s' := s.(links := s.links[p := link.(inFlight := link.inFlight - multiset{f}, receiver := receiver)]);
  }

  /** Or be lost. */
  lemma CanLose(s: State, p: Peer, f: Fragment) returns (s': State)
    requires p in s.links && f in s.links[p].inFlight
    ensures Next(s, Lose(p, f), s') && p in s'.links && s'.links[p].receiver == s.links[p].receiver
    ensures s'.links[p].inFlight == s.links[p].inFlight - multiset{f}
  {
    var link := s.links[p];
    s' := s.(links := s.links[p := link.(inFlight := link.inFlight - multiset{f})]);
  }

  /** A state of the run below: the first `i` fragments of the first frame are out and arrived. */
  ghost predicate Delivering(s: State, p: Peer, frame: seq<byte>, i: nat) {
    && Reachable(s) && s.phase == Sending(frame, i) && s.frames == [frame] && s.frameSeq == 0 && s.peers == [p]
    && p in s.links && s.links[p].joined == 0 && s.links[p].inFlight == multiset{}
    && s.links[p].receiver.delivered == s.links[p].sent
  }

  lemma FirstFrameBegun(p: Peer, frame: seq<byte>) returns (s: State)
    ensures Delivering(s, p, frame, 0)
  {
    HelloMessages(HELLO);
    var heard := Heard(INIT, HELLO, p);
    RunsNowhere(INIT);
    ReachableStep(INIT, Hear(HELLO, p), heard);
    s := heard.(phase := Sending(frame, 0), frames := [frame]);
    assert heard.frames + [frame] == [frame];
    ReachableStep(heard, BeginFrame(frame), s);
    assert heard.peers == [p];
  }

  lemma OneMoreDelivered(s: State, p: Peer, frame: seq<byte>, i: nat) returns (s': State)
    requires Delivering(s, p, frame, i) && i < TotalFragments(|frame|)
    ensures Delivering(s', p, frame, i + 1)
  {
    hide Reachable, FragmentAt, TotalFragments;
    var sent := Broadcast(s);
    ReachableStep(s, SendFragment, sent);
    var f := FragmentAt(0, frame, i);
    assert sent.links[p].inFlight == multiset{f};
    s' := CanDeliver(sent, p, f);
    ReachableStep(sent, Deliver(p, f), s');
  }

  lemma {:induction false} AllDelivered(p: Peer, frame: seq<byte>, i: nat) returns (s: State)
    requires i <= TotalFragments(|frame|)
    ensures Delivering(s, p, frame, i)
  {
    hide Delivering;
    if i == 0 {
      s := FirstFrameBegun(p, frame);
    } else {
      s := AllDelivered(p, frame, i - 1);
      s := OneMoreDelivered(s, p, frame, i - 1);
    }
  }

  /** For every frame that has fragments there is a run in which a peer is discovered and shows it. */
  lemma FrameCanBeShown(p: Peer, frame: seq<byte>) returns (s: State)
    requires TotalFragments(|frame|) > 0
    ensures Reachable(s) && p in s.links && s.links[p].receiver.shown == [Output(0, SentBytes(frame))]
  {
    s := AllDelivered(p, frame, TotalFragments(|frame|));
    LosslessShowsFullySent(s, p);
    var r := s.links[p].receiver;
    assert CursorFrame(s) == 0 && FullySent(s.frames, 0, 0) == [];
    assert FrameNumbers(r.shown) == [0];
    assert |r.shown| == 1 && r.shown[0].frameSeq == FrameNumbers(r.shown)[0];
    FrameIntegrity(s, p, 0);
  }

  // ---------------------------------------------------------------- discovery

  /** The peer list holds the sources of the HELLO messages handled so far, once each, in first-seen order. */
  lemma DiscoveryList(s: State)
    requires Reachable(s)
    ensures Distinct(s.peers)
    ensures forall p :: p in s.peers <==> p in s.hellos
    ensures forall i, j :: 0 <= i < j < |s.peers| ==> ComesBefore(s.hellos, s.peers[i], s.peers[j])
  {
    ReachableInvariant(s);
    FirstSeenOrder(s.hellos);
  }

  ghost predicate Grows(s: State, t: State) {
    && s.peers <= t.peers && s.hellos <= t.hellos && s.frames <= t.frames && s.wire <= t.wire
    && forall p :: p in s.links ==> p in t.links && LinkGrows(s.links[p], t.links[p])
  }

  ghost predicate LinkGrows(link: Link, link': Link) {
    && link'.joined == link.joined && link.sent <= link'.sent
    && link.receiver.delivered <= link'.receiver.delivered && link.receiver.shown <= link'.receiver.shown
  }

  /** Along a run the peer list and the output only grow, a peer's joining point never moves, and what was delivered to
      a peer and shown there stays delivered and shown. */
  lemma {:induction false} OnlyGrows(trace: seq<State>, es: seq<Event>, m: nat, n: nat)
    requires IsRun(trace, es) && trace[0] == INIT && m <= n <= |es|
    ensures Grows(trace[m], trace[n])
    decreases n
  {
    hide Next, DiscoveryInvariant;
    if m < n {
      OnlyGrows(trace, es, m, n - 1);
      InvariantHolds(trace, es, n - 1);
      StepGrows(trace[n - 1], es[n - 1], trace[n]);
      GrowsTransitive(trace[m], trace[n - 1], trace[n]);
    }
  }

  lemma GrowsTransitive(s: State, t: State, u: State)
    requires Grows(s, t) && Grows(t, u)
    ensures Grows(s, u)
  {
  }

  lemma StepGrows(s: State, e: Event, s': State)
    requires DiscoveryInvariant(s) && Next(s, e, s')
    ensures Grows(s, s')
  {
    hide Receives, LinkGrows;
    forall p | p in s.links ensures p in s'.links && LinkGrows(s.links[p], s'.links[p]) {
      LinkStepGrows(s, e, s', p);
    }
    assert s.peers <= s'.peers && s.hellos <= s'.hellos && s.frames <= s'.frames && s.wire <= s'.wire;
  }

  lemma LinkStepGrows(s: State, e: Event, s': State, p: Peer)
    requires DiscoveryInvariant(s) && Next(s, e, s') && p in s.links
    ensures p in s'.links && LinkGrows(s.links[p], s'.links[p])
  {
    hide Receives, IsHello;
    if e.Deliver? && e.to == p {
      ReceiverGrows(s.links[p].receiver, e.f, s'.links[p].receiver);
    }
  }

  lemma ReceiverGrows(r: Receiver, f: Fragment, r': Receiver)
    requires Receives(r, f, r')
    ensures r.delivered <= r'.delivered && r.shown <= r'.shown
  {
  }

  // ---------------------------------------------------------------- a frame that is missed once

  lemma {:induction false} OfFramePrefix(h: seq<Fragment>, longer: seq<Fragment>, q: uint32)
    requires h <= longer
    ensures OfFrame(h, q) <= OfFrame(longer, q)
    decreases |longer|
  {
    if |h| < |longer| {
      OfFramePrefix(h, longer[..|longer| - 1], q);
    } else {
      assert h == longer;
    }
  }

  ghost predicate LastArrived(h: seq<Fragment>, q: uint32) {
    exists k :: 0 <= k < |h| && h[k].frameSeq == q && h[k].last
  }

  /** There is one last-flagged fragment of a frame, so that its arrival decides once. */
  lemma DecidedOnce(frames: seq<seq<byte>>, h: seq<Fragment>, longer: seq<Fragment>, q: uint32)
    requires Clean(frames, longer) && h <= longer && q < |frames| && LastArrived(h, q)
    ensures LastAfterAllOthers(frames, longer, q) <==> LastAfterAllOthers(frames, h, q)
  {
    var k :| 0 <= k < |h| && h[k].frameSeq == q && h[k].last;
    assert longer[k] == h[k] && longer[..k + 1] == h[..k + 1];
    forall n | 0 <= n < |longer| && longer[n].frameSeq == q && longer[n].last ensures n == k {
      assert Genuine(frames, longer[n]) && Genuine(frames, longer[k]);
    }
    assert LastAfterOthersAt(frames, longer, q, k) <==> LastAfterOthersAt(frames, h, q, k);
  }

  lemma SameFrame(frames: seq<seq<byte>>, more: seq<seq<byte>>, h: seq<Fragment>, q: uint32)
    requires frames <= more && q < |frames|
    ensures LastAfterAllOthers(frames, h, q) <==> LastAfterAllOthers(more, h, q)
  {
    forall k | 0 <= k < |h| ensures LastAfterOthersAt(frames, h, q, k) <==> LastAfterOthersAt(more, h, q, k) {
    }
  }

  /** Along a run, a frame that is not shown when its last-flagged fragment has arrived is never shown, and what the
      buffer holds of it is held for the rest of the run: nothing ever clears it. */
  lemma MissedForGood(trace: seq<State>, es: seq<Event>, m: nat, n: nat, p: Peer, q: uint32)
    requires IsRun(trace, es) && trace[0] == INIT && m <= n <= |es| && Numbered(trace[n].frames)
    requires p in trace[m].links && LastArrived(trace[m].links[p].receiver.delivered, q)
    requires q !in FrameNumbers(trace[m].links[p].receiver.shown)
    ensures p in trace[n].links && q !in FrameNumbers(trace[n].links[p].receiver.shown)
    ensures Held(trace[m].links[p].receiver.buffer, q) <= Held(trace[n].links[p].receiver.buffer, q)
    ensures LastArrived(Held(trace[m].links[p].receiver.buffer, q), q)
  {
    hide Next, ReceiverInvariant, Held, FrameNumbers, LastArrived;
    OnlyGrows(trace, es, m, n);
    ReceiverAt(trace, es, m, p);
    ReceiverAt(trace, es, n, p);
    var s, t := trace[m], trace[n];
    StillMissed(s.frames, t.frames, s.links[p].receiver, t.links[p].receiver, q);
  }

  lemma ReceiverAt(trace: seq<State>, es: seq<Event>, n: nat, p: Peer)
    requires IsRun(trace, es) && trace[0] == INIT && n <= |es|
    requires Numbered(trace[n].frames) && p in trace[n].links
    ensures ReceiverInvariant(trace[n].frames, trace[n].links[p].receiver)
  {
    hide Next, ReceiverInvariant, DiscoveryInvariant, SenderInvariant;
    InvariantHolds(trace, es, n);
    assert LinkInvariant(trace[n].frames, trace[n].wire, trace[n].links[p]);
  }

  lemma StillMissed(frames: seq<seq<byte>>, more: seq<seq<byte>>, r: Receiver, r': Receiver, q: uint32)
    requires frames <= more && r.delivered <= r'.delivered && LastArrived(r.delivered, q)
    requires ReceiverInvariant(frames, r) && ReceiverInvariant(more, r') && q !in FrameNumbers(r.shown)
    ensures q !in FrameNumbers(r'.shown) && Held(r.buffer, q) <= Held(r'.buffer, q)
    ensures LastArrived(Held(r.buffer, q), q)
  {
    hide Conserves, CompletedFrames, LastAfterAllOthers;
    var k :| 0 <= k < |r.delivered| && r.delivered[k].frameSeq == q && r.delivered[k].last;
    assert Genuine(frames, r.delivered[k]);
    ExactCompletion(frames, r.delivered);
    ExactCompletion(more, r'.delivered);
    DecidedOnce(more, r.delivered, r'.delivered, q);
    SameFrame(frames, more, r.delivered, q);
    assert IsBacklog(r, q) && IsBacklog(r', q);
    OfFramePrefix(r.delivered, r'.delivered, q);
    OfFrameContents(r.delivered, q);
    assert r.delivered[k] in OfFrame(r.delivered, q);
  }

  // ---------------------------------------------------------------- joining in the middle of a frame

  ghost predicate Emits(s: State, q: nat, i: nat)
    requires Numbered(s.frames)
  {
    && q < |s.frames| && i < TotalFragments(|s.frames[q]|)
    && (q < CursorFrame(s) || (q == CursorFrame(s) && i < CursorIndex(s)))
  }

  /** Of the fragments put out so far, a peer was addressed exactly those after it joined: a suffix of the frame
      under way at that moment, and every fragment of every later frame. */
  lemma SentIffAfterJoin(s: State, p: Peer, q: uint32, i: nat)
    requires Reachable(s) && Numbered(s.frames) && p in s.links && Emits(s, q, i)
    ensures FragmentAt(q, s.frames[q], i) in s.links[p].sent
      <==> Start(s.frames, q) + i >= s.links[p].joined
  {
    hide DiscoveryInvariant, ReceiverInvariant, WireAt, Emitted;
    ReachableInvariant(s);
    var link, f := s.links[p], FragmentAt(q, s.frames[q], i);
    assert LinkInvariant(s.frames, s.wire, link);
    EmittedAt(s.frames, CursorFrame(s), CursorIndex(s), q, i);
    var pos := Start(s.frames, q) + i;
    if pos >= link.joined {
      assert link.sent[pos - link.joined] == f;
    }
    if f in link.sent {
      TailBeginsAfter(s.frames, CursorFrame(s), CursorIndex(s), link.joined, f);
    }
  }

  /** A fragment in the output from `joined` on has its place there. */
  lemma TailBeginsAfter(frames: seq<seq<byte>>, k: nat, n: nat, joined: nat, f: Fragment)
    requires IsCursor(frames, k, n) && joined <= |WireAt(frames, k, n)|
    requires f in WireAt(frames, k, n)[joined..]
    ensures Genuine(frames, f) && Start(frames, f.frameSeq) + f.index >= joined
  {
    var wire := WireAt(frames, k, n);
    WireInPlace(frames, k, n);
    var m :| 0 <= m < |wire[joined..]| && wire[joined..][m] == f;
    assert InPlace(frames, wire, joined + m);
  }

  lemma EmittedAt(frames: seq<seq<byte>>, k: nat, n: nat, q: nat, i: nat)
    requires IsCursor(frames, k, n) && q < |frames| && i < TotalFragments(|frames[q]|)
    requires q < k || (q == k && i < n)
    ensures Start(frames, q) + i < |WireAt(frames, k, n)|
    ensures WireAt(frames, k, n)[Start(frames, q) + i] == FragmentAt(q, frames[q], i)
  {
    if q < k {
      EmittedPrefix(frames, q + 1, k);
      var upTo := Emitted(frames, q + 1);
      assert upTo[Start(frames, q) + i] == FragmentsOf(q, frames[q])[i];
      assert Emitted(frames, k)[Start(frames, q) + i] == upTo[Start(frames, q) + i];
    }
  }

  lemma {:induction false} EmittedPrefix(frames: seq<seq<byte>>, q: nat, k: nat)
    requires Numbered(frames) && q <= k <= |frames|
    ensures Emitted(frames, q) <= Emitted(frames, k)
    decreases k
  {
    if q < k {
      EmittedPrefix(frames, q, k - 1);
    }
  }

  /** A receiver never shows a frame of which a fragment went out before its peer joined. */
  lemma PartlySentNeverShown(s: State, p: Peer, q: uint32)
    requires Reachable(s) && Numbered(s.frames) && p in s.links && q < |s.frames|
    requires Start(s.frames, q) < s.links[p].joined
    ensures q !in FrameNumbers(s.links[p].receiver.shown)
  {
    ReachableInvariant(s);
    var link := s.links[p];
    assert LinkInvariant(s.frames, s.wire, link);
    if q in FrameNumbers(link.receiver.shown) {
      CompletedMeansPresent(s.frames, link.receiver.delivered, q);
      CompletedIsNotEmpty(s.frames, link.receiver.delivered, q);
      var first := FragmentAt(q, s.frames[q], 0);
      assert first in multiset(link.receiver.delivered);
      assert first in multiset(link.sent);
      TailBeginsAfter(s.frames, CursorFrame(s), CursorIndex(s), link.joined, first);
    }
  }

  lemma {:induction false} CompletedIsNotEmpty(frames: seq<seq<byte>>, h: seq<Fragment>, q: uint32)
    requires Clean(frames, h) && q in CompletedFrames(h)
    ensures q < |frames| && TotalFragments(|frames[q]|) > 0
  {
    CleanPrefix(frames, h);
    if q in CompletedFrames(h[..|h| - 1]) {
      CompletedIsNotEmpty(frames, h[..|h| - 1], q);
    } else {
      assert Genuine(frames, h[|h| - 1]);
    }
  }

  // ---------------------------------------------------------------- lossless delivery in order

  /** The numbers below `k` of the frames that are not empty and begin at or after position `joined`. */
  ghost function FullySent(frames: seq<seq<byte>>, k: nat, joined: nat): seq<uint32>
    requires Numbered(frames) && k <= |frames|
  {
    if k == 0 then [] else
      FullySent(frames, k - 1, joined)
      + if Start(frames, k - 1) >= joined && TotalFragments(|frames[k - 1]|) > 0 then [k - 1] else []
  }

  lemma {:induction false} FullySentContents(frames: seq<seq<byte>>, k: nat, joined: nat)
    requires Numbered(frames) && k <= |frames|
    ensures forall q: nat ::
      q in FullySent(frames, k, joined) <==> q < k && Start(frames, q) >= joined && TotalFragments(|frames[q]|) > 0
    ensures forall i, j :: 0 <= i < j < |FullySent(frames, k, joined)| ==>
      FullySent(frames, k, joined)[i] < FullySent(frames, k, joined)[j]
  {
    hide Start;
    if k > 0 {
      FullySentContents(frames, k - 1, joined);
      var front := FullySent(frames, k - 1, joined);
      forall i | 0 <= i < |front| ensures front[i] < k - 1 {
        assert front[i] in front;
      }
    }
  }

  ghost function After(wire: seq<Fragment>, joined: nat): seq<Fragment> {
    if joined <= |wire| then wire[joined..] else []
  }

  /** Frame `k`, when all of its `i > 0` fragments are out and it began at or after `joined`. */
  ghost function JustSent(frames: seq<seq<byte>>, k: nat, i: nat, joined: nat): seq<uint32>
    requires IsCursor(frames, k, i)
  {
    if i > 0 && i == TotalFragments(|frames[k]|) && Start(frames, k) >= joined then [k] else []
  }

  /** The frames completed by the output from `joined` on, read in order. */
  lemma {:induction false} InOrderCompletes(frames: seq<seq<byte>>, k: nat, i: nat, joined: nat)
    requires IsCursor(frames, k, i)
    ensures CompletedFrames(After(WireAt(frames, k, i), joined))
      == FullySent(frames, k, joined) + JustSent(frames, k, i, joined)
    decreases k, i
  {
    hide CompletedFrames, WireAt, FullySent;
    if i > 0 {
      InOrderCompletes(frames, k, i - 1, joined);
      InOrderStep(frames, k, i - 1, joined);
      assert JustSent(frames, k, i - 1, joined) == [];
    } else if k > 0 {
      InOrderCompletes(frames, k - 1, TotalFragments(|frames[k - 1]|), joined);
      InOrderNextFrame(frames, k, joined);
    } else {
      NothingCompleted(frames, joined);
    }
  }

  lemma InOrderNextFrame(frames: seq<seq<byte>>, k: nat, joined: nat)
    requires Numbered(frames) && 0 < k <= |frames|
    ensures var n := TotalFragments(|frames[k - 1]|);
      && CompletedFrames(After(WireAt(frames, k, 0), joined))
         == CompletedFrames(After(WireAt(frames, k - 1, n), joined))
      && FullySent(frames, k, joined) == FullySent(frames, k - 1, joined) + JustSent(frames, k - 1, n, joined)
      && JustSent(frames, k, 0, joined) == []
  {
    NextFrameSameWire(frames, k);
  }

  lemma NothingCompleted(frames: seq<seq<byte>>, joined: nat)
    requires Numbered(frames)
    ensures CompletedFrames(After(WireAt(frames, 0, 0), joined)) == FullySent(frames, 0, joined) == []
  {
    assert WireAt(frames, 0, 0) == [];
  }

  lemma InOrderStep(frames: seq<seq<byte>>, k: nat, i: nat, joined: nat)
    requires IsCursor(frames, k, i) && k < |frames| && i < TotalFragments(|frames[k]|)
    ensures CompletedFrames(After(WireAt(frames, k, i + 1), joined))
      == CompletedFrames(After(WireAt(frames, k, i), joined)) + JustSent(frames, k, i + 1, joined)
  {
    var wire, f := WireAt(frames, k, i), FragmentAt(k, frames[k], i);
    WireGrowsByOne(frames, k, i);
    if joined <= |wire| {
      assert After(wire + [f], joined) == After(wire, joined) + [f];
      HistoryStep(After(wire, joined), f, k);
      if f.last {
        AllThereIffBegunAfter(frames, k, joined);
      }
    } else {
      assert After(wire + [f], joined) == [];
    }
  }

  lemma AllThereIffBegunAfter(frames: seq<seq<byte>>, k: nat, joined: nat)
    requires Numbered(frames) && k < |frames| && TotalFragments(|frames[k]|) > 0
    requires joined < |WireAt(frames, k, TotalFragments(|frames[k]|))|
    ensures var total := TotalFragments(|frames[k]|);
      (forall j :: 0 <= j < total ==> HasFragment(After(WireAt(frames, k, total), joined), k, j))
      <==> Start(frames, k) >= joined
  {
    var total := TotalFragments(|frames[k]|);
    var wire, start := WireAt(frames, k, total), Start(frames, k);
    var h := After(wire, joined);
    if start >= joined {
      forall j | 0 <= j < total ensures HasFragment(h, k, j) {
        EmittedAt(frames, k, total, k, j);
        assert h[start + j - joined] == wire[start + j];
      }
    } else if HasFragment(h, k, 0) {
      var n :| 0 <= n < |h| && h[n].frameSeq == k && h[n].index == 0;
      TailBeginsAfter(frames, k, total, joined, h[n]);
    }
  }

  /** If everything addressed to a peer arrived in order, its receiver shows the fully sent frames, in order, and
      no other: not the frame under way when it joined, not the one under way now. */
  lemma LosslessShowsFullySent(s: State, p: Peer)
    requires Reachable(s) && Numbered(s.frames) && p in s.links
    requires s.links[p].receiver.delivered == s.links[p].sent
    ensures var k := CursorFrame(s);
      && 0 <= k && IsCursor(s.frames, k, CursorIndex(s))
      && FrameNumbers(s.links[p].receiver.shown)
         == FullySent(s.frames, k, s.links[p].joined)
            + JustSent(s.frames, k, CursorIndex(s), s.links[p].joined)
  {
    ReachableInvariant(s);
    assert LinkInvariant(s.frames, s.wire, s.links[p]);
    InOrderCompletes(s.frames, CursorFrame(s), CursorIndex(s), s.links[p].joined);
  }

  // ---------------------------------------------------------------- the histories are the run's

  function HelloSources(es: seq<Event>): seq<Peer> {
    if es == [] then [] else
      var e := es[|es| - 1];
      HelloSources(es[..|es| - 1]) + if e.Hear? && IsHello(e.message) then [e.from] else []
  }

  function BegunFrames(es: seq<Event>): seq<seq<byte>> {
    if es == [] then [] else
      var e := es[|es| - 1];
      BegunFrames(es[..|es| - 1]) + if e.BeginFrame? then [e.frame] else []
  }

  function DeliveredTo(es: seq<Event>, p: Peer): seq<Fragment> {
    if es == [] then [] else
      var e := es[|es| - 1];
      DeliveredTo(es[..|es| - 1], p) + if e.Deliver? && e.to == p then [e.f] else []
  }

  function FragmentsSent(es: seq<Event>): nat {
    if es == [] then 0 else FragmentsSent(es[..|es| - 1]) + if es[|es| - 1].SendFragment? then 1 else 0
  }

  ghost predicate RecordsEvents(s: State, es: seq<Event>) {
    && s.hellos == HelloSources(es)
    && s.frames == BegunFrames(es)
    && |s.wire| == FragmentsSent(es)
    && forall p :: DeliveredTo(es, p) == DeliveredIn(s, p)
  }

  /** The history kept in a state is that of the events: the HELLO messages handled, the frames begun, the number of
      fragments put out and, per peer, the fragments delivered. */
  lemma {:induction false} HistoryOfRun(trace: seq<State>, es: seq<Event>, n: nat)
    requires IsRun(trace, es) && trace[0] == INIT && n <= |es|
    ensures RecordsEvents(trace[n], es[..n])
  {
    if n > 0 {
      HistoryOfRun(trace, es, n - 1);
      InvariantHolds(trace, es, n - 1);
      assert es[..n][..n - 1] == es[..n - 1];
      RecordStep(trace[n - 1], es[..n], trace[n]);
    }
  }

  lemma RecordStep(s: State, es: seq<Event>, s': State)
    requires es != [] && DiscoveryInvariant(s) && RecordsEvents(s, es[..|es| - 1]) && Next(s, es[|es| - 1], s')
    ensures RecordsEvents(s', es)
  {
    var e := es[|es| - 1];
    SenderRecord(s, e, s');
    forall p ensures DeliveredTo(es, p) == DeliveredIn(s', p) {
      DeliveryRecord(s, e, s', p);
      assert DeliveredTo(es[..|es| - 1], p) == DeliveredIn(s, p);
    }
  }

  ghost function DeliveredIn(s: State, p: Peer): seq<Fragment> {
    if p in s.links then s.links[p].receiver.delivered else []
  }

  lemma SenderRecord(s: State, e: Event, s': State)
    requires Next(s, e, s')
    ensures s'.hellos == s.hellos + if e.Hear? && IsHello(e.message) then [e.from] else []
    ensures s'.frames == s.frames + if e.BeginFrame? then [e.frame] else []
    ensures |s'.wire| == |s.wire| + if e.SendFragment? then 1 else 0
  {
  }

  lemma DeliveryRecord(s: State, e: Event, s': State, p: Peer)
    requires DiscoveryInvariant(s) && Next(s, e, s')
    ensures DeliveredIn(s', p) == DeliveredIn(s, p) + if e.Deliver? && e.to == p then [e.f] else []
  {
  }
}

/** The receiving side of the video stream (Online_AV/Online_AV.cpp, VideoPlayback): a buffer of fragments per frame
    number, tested for completeness only when a last-flagged fragment arrives. */
module Reassembly {
  import opened Basics
  import opened Fragmentation

  /** The event the receiver lets the outside world see: a frame number and the bytes handed to the decoder. */
  datatype Output = Output(frameSeq: uint32, bytes: seq<byte>)

  /** The receiver with its history: `delivered` lists every fragment received, `consumed` those of the frames
      reassembled so far, `shown` the reassembled frames, each in order of time. */
  datatype Receiver = Receiver(
    buffer: map<uint32, seq<Fragment>>,
    shown: seq<Output>,
    delivered: seq<Fragment>,
    consumed: seq<Fragment>)

  const EMPTY_RECEIVER := Receiver(map[], [], [], [])

  function Held(buffer: map<uint32, seq<Fragment>>, q: uint32): seq<Fragment> {
    if q in buffer then buffer[q] else []
  }

  ghost predicate SortedByIndex(fs: seq<Fragment>) {
    forall i, j :: 0 <= i < j < |fs| ==> fs[i].index <= fs[j].index
  }

  /** What sorting may return: the order of equal indices is not fixed. */
  ghost predicate SortOf(fs: seq<Fragment>, sorted: seq<Fragment>) {
    multiset(fs) == multiset(sorted) && SortedByIndex(sorted)
  }

  lemma InsertedSorted(sorted: seq<Fragment>, f: Fragment, k: nat)
    requires SortedByIndex(sorted) && k <= |sorted|
    requires k > 0 ==> sorted[k - 1].index <= f.index
    requires k < |sorted| ==> f.index < sorted[k].index
    ensures SortedByIndex(sorted[..k] + [f] + sorted[k..])
  {
    var r := sorted[..k] + [f] + sorted[k..];
    forall i, j | 0 <= i < j < |r| ensures r[i].index <= r[j].index {
      if i < k { assert r[i] == sorted[i]; }
      if i > k { assert r[i] == sorted[i - 1]; }
      if j < k { assert r[j] == sorted[j]; }
      if j > k { assert r[j] == sorted[j - 1]; }
    }
  }

  /** There is a sorted order of any fragments. */
  lemma {:induction false} SomeSort(fs: seq<Fragment>) returns (sorted: seq<Fragment>)
    ensures SortOf(fs, sorted)
  {
    if fs == [] {
      sorted := [];
    } else {
      var front, f := fs[..|fs| - 1], fs[|fs| - 1];
      var rest := SomeSort(front);
      var k := |rest|;
      while k > 0 && rest[k - 1].index > f.index
        invariant 0 <= k <= |rest|
        invariant k < |rest| ==> f.index < rest[k].index
      {
        k := k - 1;
      }
      InsertedSorted(rest, f, k);
      sorted := rest[..k] + [f] + rest[k..];
      assert fs == front + [f] && rest == rest[..k] + rest[k..];
    }
  }

  /** The bytes that sorting `fs` and appending the payloads may produce. */
  ghost predicate Reassembles(fs: seq<Fragment>, bytes: seq<byte>) {
    exists sorted :: SortOf(fs, sorted) && bytes == Concat(sorted)
  }

  /** One iteration of the receive loop. */
  ghost predicate Receives(r: Receiver, f: Fragment, r': Receiver) {
    var held := Held(r.buffer, f.frameSeq) + [f];
    && r'.delivered == r.delivered + [f]
    && if f.last && |held| == f.total then
         && |r'.shown| == |r.shown| + 1
         && r'.shown[..|r.shown|] == r.shown
         && r'.shown[|r.shown|].frameSeq == f.frameSeq
         && Reassembles(held, r'.shown[|r.shown|].bytes)
         && r'.buffer == r.buffer - {f.frameSeq}
         && r'.consumed == r.consumed + held
       else
         && r'.buffer == r.buffer[f.frameSeq := held]
         && r'.shown == r.shown
         && r'.consumed == r.consumed
  }

  /** A receiver can take any fragment at any time. */
  lemma CanReceive(r: Receiver, f: Fragment) returns (r': Receiver)
    ensures Receives(r, f, r')
  {
    var held := Held(r.buffer, f.frameSeq) + [f];
    var delivered := r.delivered + [f];
    if f.last && |held| == f.total {
      var sorted := SomeSort(held);
      var output := Output(f.frameSeq, Concat(sorted));
      r' := Receiver(r.buffer - {f.frameSeq}, r.shown + [output], delivered, r.consumed + held);
      assert Reassembles(held, output.bytes);
    } else {
      r' := Receiver(r.buffer[f.frameSeq := held], r.shown, delivered, r.consumed);
    }
  }

  // ---------------------------------------------------------------- conservation, for every history

  /** Each fragment received is held under its own frame number or belongs to a reassembled frame, never both. */
  ghost predicate Conserves(r: Receiver) {
    && (forall q :: q in r.buffer ==> HeldUnder(r.buffer[q], q))
    && (forall f: Fragment :: ConservesCount(r, f))
  }

  ghost predicate HeldUnder(held: seq<Fragment>, q: uint32) {
    forall k :: 0 <= k < |held| ==> held[k].frameSeq == q
  }

  ghost predicate ConservesCount(r: Receiver, f: Fragment) {
    multiset(r.delivered)[f] == multiset(r.consumed)[f] + multiset(Held(r.buffer, f.frameSeq))[f]
  }

  lemma ConservationStep(r: Receiver, f: Fragment, r': Receiver)
    requires Conserves(r) && Receives(r, f, r')
    ensures Conserves(r')
  {
    assert HeldUnder(Held(r.buffer, f.frameSeq), f.frameSeq);
    forall g: Fragment ensures ConservesCount(r', g) {
      assert ConservesCount(r, g);
      ConservationAt(r, f, r', g);
    }
  }

  lemma ConservationAt(r: Receiver, f: Fragment, r': Receiver, g: Fragment)
    requires HeldUnder(Held(r.buffer, f.frameSeq), f.frameSeq) && ConservesCount(r, g)
    requires Receives(r, f, r')
    ensures ConservesCount(r', g)
  {
    var before := Held(r.buffer, f.frameSeq);
    var held := before + [f];
    assert multiset(r'.delivered) == multiset(r.delivered) + multiset{f};
    assert multiset(held) == multiset(before) + multiset{f};
    if f.last && |held| == f.total {
      assert multiset(r'.consumed) == multiset(r.consumed) + multiset(held);
    }
    if g.frameSeq != f.frameSeq {
      assert g !in before;
      assert Held(r'.buffer, g.frameSeq) == Held(r.buffer, g.frameSeq);
    }
  }

  // ---------------------------------------------------------------- completion, for histories of one sender

  predicate HasFragment(h: seq<Fragment>, q: uint32, i: nat) {
    exists k :: 0 <= k < |h| && h[k].frameSeq == q && h[k].index == i
  }

  /** The newest fragment of the history carries the last flag and no index of its frame is missing. */
  predicate CompletesLast(h: seq<Fragment>)
    requires h != []
  {
    var f := h[|h| - 1];
    f.last && forall i :: 0 <= i < f.total ==> HasFragment(h, f.frameSeq, i)
  }

  /** The frames that a history completes, in the order in which it does. */
  function CompletedFrames(h: seq<Fragment>): seq<uint32> {
    if h == [] then []
    else CompletedFrames(h[..|h| - 1]) + if CompletesLast(h) then [h[|h| - 1].frameSeq] else []
  }

  /** The part of a history that belongs to frame `q`, in order of arrival. */
  function OfFrame(h: seq<Fragment>, q: uint32): seq<Fragment> {
    if h == [] then []
    else OfFrame(h[..|h| - 1], q) + if h[|h| - 1].frameSeq == q then [h[|h| - 1]] else []
  }

  ghost predicate Genuine(frames: seq<seq<byte>>, f: Fragment) {
    && f.frameSeq < |frames|
    && f.index < TotalFragments(|frames[f.frameSeq]|)
    && f == FragmentAt(f.frameSeq, frames[f.frameSeq], f.index)
  }

  /** Fragments of the given frames, none of them twice: what one sender and a network that may lose, delay and
      reorder but not duplicate can deliver. */
  ghost predicate Clean(frames: seq<seq<byte>>, h: seq<Fragment>) {
    && Distinct(h)
    && forall k :: 0 <= k < |h| ==> Genuine(frames, h[k])
  }

  ghost predicate PresentAll(frames: seq<seq<byte>>, h: seq<Fragment>, q: uint32)
    requires q < |frames|
  {
    forall i :: 0 <= i < TotalFragments(|frames[q]|) ==> FragmentAt(q, frames[q], i) in h
  }

  /** The completion condition in the words of the sender: the last-flagged fragment of `q` was delivered at some
      point, and every other fragment of `q` before it. */
  ghost predicate LastAfterAllOthers(frames: seq<seq<byte>>, h: seq<Fragment>, q: uint32)
    requires q < |frames|
  {
    exists p :: 0 <= p < |h| && LastAfterOthersAt(frames, h, q, p)
  }

  ghost predicate LastAfterOthersAt(frames: seq<seq<byte>>, h: seq<Fragment>, q: uint32, p: nat)
    requires q < |frames| && p < |h|
  {
    h[p].frameSeq == q && h[p].last && PresentAll(frames, h[..p + 1], q)
  }

  /** The part of a frame, joined from the parts of two pieces of a history: its order is that of arrival. */
  lemma {:induction false} OfFrameOrder(a: seq<Fragment>, b: seq<Fragment>, q: uint32)
    ensures OfFrame(a + b, q) == OfFrame(a, q) + OfFrame(b, q)
  {
    if b == [] {
      assert a + b == a;
    } else {
      OfFrameOrder(a, b[..|b| - 1], q);
      assert (a + b)[..|a + b| - 1] == a + b[..|b| - 1];
    }
  }

  lemma OfFrameSingle(f: Fragment, q: uint32)
    ensures OfFrame([f], q) == if f.frameSeq == q then [f] else []
  {
    assert [f][..0] == [];
  }

  lemma {:induction false} OfFrameContents(h: seq<Fragment>, q: uint32)
    ensures forall f :: f in OfFrame(h, q) <==> f in h && f.frameSeq == q
    ensures Distinct(h) ==> Distinct(OfFrame(h, q))
  {
    if h != [] {
      var front, f := h[..|h| - 1], h[|h| - 1];
      OfFrameContents(front, q);
      assert h == front + [f];
      if Distinct(h) {
        assert Distinct(front) && f !in front;
      }
    }
  }

  lemma HasGenuine(frames: seq<seq<byte>>, h: seq<Fragment>, q: uint32, i: nat)
    requires forall k :: 0 <= k < |h| ==> Genuine(frames, h[k])
    requires q < |frames| && i < TotalFragments(|frames[q]|)
    ensures HasFragment(h, q, i) <==> FragmentAt(q, frames[q], i) in h
  {
  }

  lemma {:induction false} CleanPrefix(frames: seq<seq<byte>>, h: seq<Fragment>)
    requires Clean(frames, h) && h != []
    ensures Clean(frames, h[..|h| - 1]) && h[|h| - 1] !in h[..|h| - 1]
  {
  }

  /** Completing frames is a matter of order of arrival, stated without counting; each frame completes once. */
  lemma {:induction false} ExactCompletion(frames: seq<seq<byte>>, h: seq<Fragment>)
    requires Clean(frames, h)
    ensures forall q: uint32 | q < |frames| :: q in CompletedFrames(h) <==> LastAfterAllOthers(frames, h, q)
    ensures Distinct(CompletedFrames(h))
  {
    if h != [] {
      var front := h[..|h| - 1];
      CleanPrefix(frames, h);
      ExactCompletion(frames, front);
      forall q: uint32 | q < |frames|
        ensures q in CompletedFrames(h) <==> LastAfterAllOthers(frames, h, q)
      {
        LastAfterAllOthersStep(frames, h, q);
      }
      NotYetComplete(frames, h);
    }
  }

  lemma LastAfterAllOthersStep(frames: seq<seq<byte>>, h: seq<Fragment>, q: uint32)
    requires Clean(frames, h) && h != [] && q < |frames|
    ensures LastAfterAllOthers(frames, h, q)
      <==> LastAfterAllOthers(frames, h[..|h| - 1], q) || (q == h[|h| - 1].frameSeq && CompletesLast(h))
  {
    var front, n := h[..|h| - 1], |h| - 1;
    CompletesLastIsPresentAll(frames, h);
    assert h[..n + 1] == h;
    assert LastAfterOthersAt(frames, h, q, n) <==> q == h[n].frameSeq && CompletesLast(h);
    forall p | 0 <= p < n
      ensures LastAfterOthersAt(frames, h, q, p) <==> LastAfterOthersAt(frames, front, q, p)
    {
      assert h[..p + 1] == front[..p + 1];
    }
  }

  lemma CompletesLastIsPresentAll(frames: seq<seq<byte>>, h: seq<Fragment>)
    requires Clean(frames, h) && h != []
    ensures var f := h[|h| - 1]; CompletesLast(h) <==> f.last && PresentAll(frames, h, f.frameSeq)
  {
    var f := h[|h| - 1];
    forall i | 0 <= i < f.total
      ensures HasFragment(h, f.frameSeq, i) <==> FragmentAt(f.frameSeq, frames[f.frameSeq], i) in h
    {
      HasGenuine(frames, h, f.frameSeq, i);
    }
  }

  lemma {:induction false} CompletedMeansPresent(frames: seq<seq<byte>>, h: seq<Fragment>, q: uint32)
    requires Clean(frames, h) && q in CompletedFrames(h)
    ensures q < |frames| && PresentAll(frames, h, q)
  {
    var front := h[..|h| - 1];
    CleanPrefix(frames, h);
    if q in CompletedFrames(front) {
      CompletedMeansPresent(frames, front, q);
      assert forall f :: f in front ==> f in h;
    } else {
      CompletesLastIsPresentAll(frames, h);
    }
  }

  /** The frame of a fragment still to arrive cannot be complete. */
  lemma NotYetComplete(frames: seq<seq<byte>>, h: seq<Fragment>)
    requires Clean(frames, h) && h != []
    ensures h[|h| - 1].frameSeq !in CompletedFrames(h[..|h| - 1])
  {
    var front, f := h[..|h| - 1], h[|h| - 1];
    CleanPrefix(frames, h);
    if f.frameSeq in CompletedFrames(front) {
      CompletedMeansPresent(frames, front, f.frameSeq);
      assert false;
    }
  }

  // ---------------------------------------------------------------- counting and sorting

  /** Distinct fragments of one frame, as many as the frame has, sort to the frame's own sequence. */
  lemma SortIsUnique(frames: seq<seq<byte>>, q: uint32, held: seq<Fragment>, sorted: seq<Fragment>)
    requires Clean(frames, held) && q < |frames|
    requires forall f :: f in held ==> f.frameSeq == q
    requires |held| == TotalFragments(|frames[q]|)
    requires SortOf(held, sorted)
    ensures sorted == FragmentsOf(q, frames[q])
  {
    PermutationStaysDistinct(held, sorted);
    forall i | 0 <= i < |sorted|
      ensures sorted[i].frameSeq == q && Genuine(frames, sorted[i])
    {
      assert sorted[i] in Elements(held);
    }
    var indices := seq(|sorted|, i requires 0 <= i < |sorted| => sorted[i].index);
    forall j, k | 0 <= j < k < |indices| ensures indices[j] < indices[k] {
      assert sorted[j] != sorted[k];
    }
    forall i | 0 <= i < |sorted| ensures sorted[i] == FragmentAt(q, frames[q], i) {
      IncreasingBelowLength(indices, i);
    }
  }

  /** Pigeonhole: the count test of the receiver is the presence of every fragment. */
  lemma CountIsPresence(frames: seq<seq<byte>>, h: seq<Fragment>, q: uint32)
    requires Clean(frames, h) && q < |frames|
    ensures |OfFrame(h, q)| <= TotalFragments(|frames[q]|)
    ensures |OfFrame(h, q)| == TotalFragments(|frames[q]|) <==> PresentAll(frames, h, q)
  {
    var held, all := OfFrame(h, q), FragmentsOf(q, frames[q]);
    OfFrameContents(h, q);
    FragmentsDistinct(q, frames[q]);
    ElementCount(held);
    ElementCount(all);
    forall f | f in Elements(held) ensures f in Elements(all) {
      assert f in h && f == all[f.index];
    }
    SubsetOfSameSize(Elements(held), Elements(all));
    if PresentAll(frames, h, q) {
      forall f | f in Elements(all) ensures f in Elements(held) {
        var i :| 0 <= i < |all| && f == all[i];
        assert FragmentAt(q, frames[q], i) in h;
      }
      assert Elements(all) == Elements(held);
    }
    if |held| == |all| {
      forall i | 0 <= i < TotalFragments(|frames[q]|) ensures FragmentAt(q, frames[q], i) in h {
        assert all[i] in Elements(all);
        assert all[i] in Elements(held);
      }
    }
  }

  // ---------------------------------------------------------------- the receiver's invariant

  /** The frames `q` whose reassembly the receiver has shown carry the bytes sent under that number. */
  ghost predicate ShowsSentFrames(frames: seq<seq<byte>>, shown: seq<Output>) {
    forall k :: 0 <= k < |shown| ==>
      shown[k].frameSeq < |frames| && shown[k].bytes == SentBytes(frames[shown[k].frameSeq])
  }

  function FrameNumbers(shown: seq<Output>): seq<uint32> {
    seq(|shown|, k requires 0 <= k < |shown| => shown[k].frameSeq)
  }

  /** What the buffer holds under `q` is what arrived for `q`, unless `q` is complete; then it holds nothing. */
  ghost predicate BufferIsBacklog(r: Receiver) {
    forall q: uint32 :: IsBacklog(r, q)
  }

  ghost predicate IsBacklog(r: Receiver, q: uint32) {
    Held(r.buffer, q) == if q in CompletedFrames(r.delivered) then [] else OfFrame(r.delivered, q)
  }

  ghost predicate ReceiverInvariant(frames: seq<seq<byte>>, r: Receiver) {
    && Clean(frames, r.delivered)
    && Conserves(r)
    && BufferIsBacklog(r)
    && FrameNumbers(r.shown) == CompletedFrames(r.delivered)
    && ShowsSentFrames(frames, r.shown)
  }

  lemma ReceiverStep(frames: seq<seq<byte>>, r: Receiver, f: Fragment, r': Receiver)
    requires ReceiverInvariant(frames, r) && Receives(r, f, r')
    requires Genuine(frames, f) && f !in r.delivered
    ensures ReceiverInvariant(frames, r')
  {
    assert Clean(frames, r'.delivered);
    assert Conserves(r') by { ConservationStep(r, f, r'); }
    CountTestIsCompletion(frames, r, f);
    assert BufferIsBacklog(r') by { BacklogStep(r, f, r'); }
    assert FrameNumbers(r'.shown) == CompletedFrames(r'.delivered) && ShowsSentFrames(frames, r'.shown) by {
      ShownStep(frames, r, f, r');
    }
  }

  /** The test of the source on the arrival of `f` is the completion of the frame of `f`. */
  ghost predicate CountTestExact(r: Receiver, f: Fragment) {
    var h := r.delivered + [f];
    && f.frameSeq !in CompletedFrames(r.delivered)
    && Held(r.buffer, f.frameSeq) + [f] == OfFrame(h, f.frameSeq)
    && (f.last && |OfFrame(h, f.frameSeq)| == f.total <==> CompletesLast(h))
  }

  lemma CountTestIsCompletion(frames: seq<seq<byte>>, r: Receiver, f: Fragment)
    requires BufferIsBacklog(r) && Clean(frames, r.delivered + [f])
    ensures CountTestExact(r, f)
  {
    var h := r.delivered + [f];
    assert h[..|h| - 1] == r.delivered && h[|h| - 1] == f;
    assert IsBacklog(r, f.frameSeq);
    NotYetComplete(frames, h);
    CountIsPresence(frames, h, f.frameSeq);
    CompletesLastIsPresentAll(frames, h);
  }

  lemma BacklogStep(r: Receiver, f: Fragment, r': Receiver)
    requires BufferIsBacklog(r) && Receives(r, f, r') && CountTestExact(r, f)
    ensures BufferIsBacklog(r')
  {
    forall p: uint32 ensures IsBacklog(r', p) {
      assert IsBacklog(r, p);
      HistoryStep(r.delivered, f, p);
      if p != f.frameSeq {
        assert Held(r'.buffer, p) == Held(r.buffer, p);
      }
    }
  }

  lemma HistoryStep(h: seq<Fragment>, f: Fragment, p: uint32)
    ensures CompletedFrames(h + [f])
      == CompletedFrames(h) + if CompletesLast(h + [f]) then [f.frameSeq] else []
    ensures p != f.frameSeq ==> OfFrame(h + [f], p) == OfFrame(h, p)
    ensures p != f.frameSeq ==> (p in CompletedFrames(h + [f]) <==> p in CompletedFrames(h))
  {
    assert (h + [f])[..|h + [f]| - 1] == h;
  }

  lemma ShownStep(frames: seq<seq<byte>>, r: Receiver, f: Fragment, r': Receiver)
    requires Receives(r, f, r') && CountTestExact(r, f) && Clean(frames, r'.delivered)
    requires FrameNumbers(r.shown) == CompletedFrames(r.delivered) && ShowsSentFrames(frames, r.shown)
    ensures FrameNumbers(r'.shown) == CompletedFrames(r'.delivered) && ShowsSentFrames(frames, r'.shown)
  {
    HistoryStep(r.delivered, f, f.frameSeq);
    if CompletesLast(r'.delivered) {
      var output := r'.shown[|r.shown|];
      assert r'.shown == r.shown + [output];
      ReassemblyIsSent(frames, r'.delivered, f, output.bytes);
      MoreShown(frames, r.shown, output);
    }
  }

  lemma MoreShown(frames: seq<seq<byte>>, shown: seq<Output>, output: Output)
    requires ShowsSentFrames(frames, shown)
    requires output.frameSeq < |frames| && output.bytes == SentBytes(frames[output.frameSeq])
    ensures FrameNumbers(shown + [output]) == FrameNumbers(shown) + [output.frameSeq]
    ensures ShowsSentFrames(frames, shown + [output])
  {
  }

  /** Whatever order sorting leaves equal indices in, a complete frame comes out as it was sent. */
  lemma ReassemblyIsSent(frames: seq<seq<byte>>, h: seq<Fragment>, f: Fragment, bytes: seq<byte>)
    requires Clean(frames, h) && f in h && |OfFrame(h, f.frameSeq)| == f.total
    requires Reassembles(OfFrame(h, f.frameSeq), bytes)
    ensures f.frameSeq < |frames| && bytes == SentBytes(frames[f.frameSeq])
  {
    var q, held := f.frameSeq, OfFrame(h, f.frameSeq);
    var sorted :| SortOf(held, sorted) && bytes == Concat(sorted);
    HeldIsClean(frames, h, q);
    SortIsUnique(frames, q, held, sorted);
    ConcatInOrder(q, frames[q]);
  }

  lemma HeldIsClean(frames: seq<seq<byte>>, h: seq<Fragment>, q: uint32)
    requires Clean(frames, h)
    ensures Clean(frames, OfFrame(h, q))
    ensures forall f :: f in OfFrame(h, q) ==> f.frameSeq == q
  {
    OfFrameContents(h, q);
    var held := OfFrame(h, q);
    forall k | 0 <= k < |held| ensures Genuine(frames, held[k]) {
      assert held[k] in h;
    }
  }

  lemma ReceiverKeepsWithMoreFrames(frames: seq<seq<byte>>, frame: seq<byte>, r: Receiver)
    requires ReceiverInvariant(frames, r)
    ensures ReceiverInvariant(frames + [frame], r)
  {
    forall k | 0 <= k < |r.delivered| ensures Genuine(frames + [frame], r.delivered[k]) {
      assert Genuine(frames, r.delivered[k]);
    }
  }
}

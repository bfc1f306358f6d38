/** Two further views of reassembly (Online_AV/Online_AV.cpp, VideoPlayback): sorting and appending is the same as
    writing each fragment at its own offset; and, for datagrams that are duplicated or come from several senders under
    one number, exactly when what is shown is what was sent. */
module Placement {
  import opened Basics
  import opened Fragmentation
  import opened Reassembly

  /** Reference reassembly: write every fragment, in order of arrival, at byte `index * 1400` of `canvas`. */
  function Place(canvas: seq<byte>, fs: seq<Fragment>): (r: seq<byte>)
    ensures |r| == |canvas|
  {
    if fs == [] then canvas
    else Write(Place(canvas, fs[..|fs| - 1]), fs[|fs| - 1])
  }

  function Write(canvas: seq<byte>, f: Fragment): (r: seq<byte>)
    ensures |r| == |canvas|
  {
    seq(|canvas|, j requires 0 <= j < |canvas| =>
      if f.index * MAX_FRAGMENT <= j < f.index * MAX_FRAGMENT + |Payload(f)|
      then Payload(f)[j - f.index * MAX_FRAGMENT] else canvas[j])
  }

  /** After placing genuine fragments, a byte is the frame's if its fragment was among them. */
  lemma {:induction false} PlacedByte(frames: seq<seq<byte>>, q: uint32, fs: seq<Fragment>, canvas: seq<byte>, j: nat)
    requires q < |frames| && forall k :: 0 <= k < |fs| ==> fs[k].frameSeq == q && Genuine(frames, fs[k])
    requires j < |canvas| <= |SentBytes(frames[q])|
    ensures HasFragment(fs, q, j / MAX_FRAGMENT) ==> Place(canvas, fs)[j] == frames[q][j]
  {
    if fs != [] {
      var front, f := fs[..|fs| - 1], fs[|fs| - 1];
      PlacedByte(frames, q, front, canvas, j);
      WrittenByte(frames[q], f, Place(canvas, front), j);
      if HasFragment(fs, q, j / MAX_FRAGMENT) && f.index != j / MAX_FRAGMENT {
        var k :| 0 <= k < |fs| && fs[k].frameSeq == q && fs[k].index == j / MAX_FRAGMENT;
        assert front[k] == fs[k];
      }
    }
  }

  lemma WrittenByte(frame: seq<byte>, f: Fragment, canvas: seq<byte>, j: nat)
    requires f.index < TotalFragments(|frame|) && f == FragmentAt(f.frameSeq, frame, f.index)
    requires j < |canvas| <= |SentBytes(frame)|
    ensures Write(canvas, f)[j] == if f.index == j / MAX_FRAGMENT then frame[j] else canvas[j]
  {
    OffsetInsideFrame(|frame|, f.index);
    var offset := f.index * MAX_FRAGMENT;
    assert Payload(f) == frame[offset..offset + f.size];
  }

  /** Sort-and-append equals placement, for every order of arrival of a complete fragment set and whatever the
      canvas held before. */
  lemma SortAndAppendIsPlacement(frames: seq<seq<byte>>, q: uint32, arrived: seq<Fragment>, canvas: seq<byte>)
    requires q < |frames| && multiset(arrived) == multiset(FragmentsOf(q, frames[q]))
    requires |canvas| == |SentBytes(frames[q])|
    ensures Place(canvas, arrived) == SentBytes(frames[q])
    ensures forall bytes :: Reassembles(arrived, bytes) ==> bytes == Place(canvas, arrived)
  {
    var all := FragmentsOf(q, frames[q]);
    FragmentsDistinct(q, frames[q]);
    PermutationStaysDistinct(all, arrived);
    forall k | 0 <= k < |arrived|
      ensures arrived[k].frameSeq == q && Genuine(frames, arrived[k])
    {
      assert arrived[k] in Elements(arrived);
      var i :| 0 <= i < |all| && all[i] == arrived[k];
    }
    forall j | 0 <= j < |canvas| ensures Place(canvas, arrived)[j] == frames[q][j] {
      PlacedByte(frames, q, arrived, canvas, j);
      var i := j / MAX_FRAGMENT;
      assert all[i] in Elements(arrived);
      assert HasFragment(arrived, q, i);
    }
    forall bytes | Reassembles(arrived, bytes) ensures bytes == SentBytes(frames[q]) {
      var sorted :| SortOf(arrived, sorted) && bytes == Concat(sorted);
      SortIsUnique(frames, q, arrived, sorted);
      ConcatInOrder(q, frames[q]);
    }
  }

  /** The fragment is the one that cutting frame `x` under number `q` puts at its index. */
  ghost predicate IsPieceOf(q: uint32, x: seq<byte>, f: Fragment) {
    f.frameSeq == q && f.index < TotalFragments(|x|) && f == FragmentAt(q, x, f.index)
  }

  /** Whatever fragments a buffered set of the right count is made of, it sorts to the pieces of frame `x` if and only
      if nothing is in it twice and nothing is in it that is not a piece of `x`: neither duplicates nor another frame
      under the same number. The bytes can be right without this; when they are is the subject of BytesExactIff. */
  lemma ExactIff(q: uint32, x: seq<byte>, held: seq<Fragment>, sorted: seq<Fragment>)
    requires |held| == TotalFragments(|x|) && SortOf(held, sorted)
    ensures sorted == FragmentsOf(q, x) <==>
      Distinct(held) && forall k :: 0 <= k < |held| ==> IsPieceOf(q, x, held[k])
  {
    if Distinct(held) && forall k :: 0 <= k < |held| ==> IsPieceOf(q, x, held[k]) {
      var frames := seq(q + 1, _ => x);
      assert forall k :: 0 <= k < |held| ==> Genuine(frames, held[k]);
      SortIsUnique(frames, q, held, sorted);
    }
    if sorted == FragmentsOf(q, x) {
      FragmentsDistinct(q, x);
      PermutationStaysDistinct(sorted, held);
      forall k | 0 <= k < |held| ensures IsPieceOf(q, x, held[k]) {
        assert held[k] in Elements(held);
        var i :| 0 <= i < |sorted| && sorted[i] == held[k];
      }
    }
  }

  /** So a receiver in any state that completes frame `q` shows `x` if what it holds is distinct pieces of `x`, even
      where the number was used for other frames before. */
  lemma ExactCompletionShows(q: uint32, x: seq<byte>, r: Receiver, f: Fragment, r': Receiver)
    requires Receives(r, f, r') && f.frameSeq == q && f.last
    requires var held := Held(r.buffer, q) + [f];
      && |held| == f.total && Distinct(held)
      && forall k :: 0 <= k < |held| ==> IsPieceOf(q, x, held[k])
    ensures |r'.shown| == |r.shown| + 1 && r'.shown[|r.shown|] == Output(q, SentBytes(x))
    ensures q !in r'.buffer
  {
    var held := Held(r.buffer, q) + [f];
    assert IsPieceOf(q, x, held[|held| - 1]);
    var sorted :| SortOf(held, sorted) && r'.shown[|r.shown|].bytes == Concat(sorted);
    ExactIff(q, x, held, sorted);
    ConcatInOrder(q, x);
  }

  // ---------------------------------------------------------------- the count test and over-full buffers

  /** For any fragments at all: a step that shows a frame is the arrival of a last-flagged fragment that brings the
      count to exactly its total. */
  lemma ShowsOnlyAtTotal(r: Receiver, f: Fragment, r': Receiver)
    requires Receives(r, f, r')
    ensures r'.shown != r.shown <==> f.last && |Held(r.buffer, f.frameSeq)| + 1 == f.total
    ensures r'.shown != r.shown ==> r'.shown == r.shown + [Output(f.frameSeq, r'.shown[|r.shown|].bytes)]
  {
  }

  ghost predicate Receptions(rs: seq<Receiver>, fs: seq<Fragment>) {
    && |rs| == |fs| + 1
    && forall n :: 0 <= n < |fs| ==> Receives(rs[n], fs[n], rs[n + 1])
  }

  function TimesShown(shown: seq<Output>, q: uint32): nat {
    if shown == [] then 0
    else TimesShown(shown[..|shown| - 1], q) + if shown[|shown| - 1].frameSeq == q then 1 else 0
  }

  /** Once a buffer holds as many fragments of a number as their total without having been shown, as after a duplicate,
      the number is never shown again: the count goes on past the total. */
  lemma {:induction false} OverFullNeverShown(rs: seq<Receiver>, fs: seq<Fragment>, q: uint32, n: nat)
    requires Receptions(rs, fs) && n <= |fs|
    requires forall k :: 0 <= k < |fs| && fs[k].frameSeq == q ==> fs[k].total <= |Held(rs[0].buffer, q)|
    ensures TimesShown(rs[n].shown, q) == TimesShown(rs[0].shown, q)
    ensures Held(rs[0].buffer, q) <= Held(rs[n].buffer, q)
  {
    hide Receives, Held, TimesShown;
    if n > 0 {
      OverFullNeverShown(rs, fs, q, n - 1);
      assert Receives(rs[n - 1], fs[n - 1], rs[n]);
      OverFullStep(rs[n - 1], fs[n - 1], rs[n], q);
    }
  }

  lemma OverFullStep(r: Receiver, f: Fragment, r': Receiver, q: uint32)
    requires Receives(r, f, r') && (f.frameSeq == q ==> f.total <= |Held(r.buffer, q)|)
    ensures TimesShown(r'.shown, q) == TimesShown(r.shown, q) && Held(r.buffer, q) <= Held(r'.buffer, q)
  {
    hide Concat, Reassembles;
  }

  /** The smallest case: 0, 0, 1 of two. */
  lemma DuplicateBlocksFrame(frame: seq<byte>, r0: Receiver, r1: Receiver, r2: Receiver, r3: Receiver)
    requires |frame| == 2 * MAX_FRAGMENT && r0 == EMPTY_RECEIVER
    requires Receives(r0, FragmentAt(0, frame, 0), r1) && Receives(r1, FragmentAt(0, frame, 0), r2)
    requires Receives(r2, FragmentAt(0, frame, 1), r3)
    ensures r3.shown == [] && |r3.buffer[0]| == 3
  {
    var a, c := FragmentAt(0, frame, 0), FragmentAt(0, frame, 1);
    hide FragmentAt, Reassembles;
    assert Held(r1.buffer, 0) == [a] && Held(r2.buffer, 0) == [a, a] && Held(r3.buffer, 0) == [a, a, c] by {
      FragmentFields(0, frame, 0);
      FragmentFields(0, frame, 1);
      assert TotalFragments(|frame|) == 2;
    }
  }

  // ---------------------------------------------------------------- the bytes shown

  ghost predicate SameSizes(a: seq<Fragment>, b: seq<Fragment>) {
    |a| == |b| && forall i :: 0 <= i < |a| ==> |Payload(a[i])| == |Payload(b[i])|
  }

  ghost predicate SamePayloads(a: seq<Fragment>, b: seq<Fragment>) {
    |a| == |b| && forall i :: 0 <= i < |a| ==> Payload(a[i]) == Payload(b[i])
  }

  lemma {:induction false} ConcatOfSame(a: seq<Fragment>, b: seq<Fragment>)
    requires SamePayloads(a, b)
    ensures Concat(a) == Concat(b)
  {
    if a != [] {
      ConcatOfSame(a[..|a| - 1], b[..|b| - 1]);
    }
  }

  lemma {:induction false} SameConcat(a: seq<Fragment>, b: seq<Fragment>)
    requires SameSizes(a, b) && Concat(a) == Concat(b)
    ensures SamePayloads(a, b)
  {
    if a != [] {
      var n := |a| - 1;
      EqualSums(Concat(a[..n]), Payload(a[n]), Concat(b[..n]), Payload(b[n]));
      SameConcat(a[..n], b[..n]);
      forall i | 0 <= i < n ensures Payload(a[i]) == Payload(b[i]) {
        assert Payload(a[..n][i]) == Payload(b[..n][i]);
      }
    }
  }

  lemma EqualSums(a: seq<byte>, c: seq<byte>, b: seq<byte>, d: seq<byte>)
    requires a + c == b + d && |c| == |d|
    ensures a == b && c == d
  {
    assert a == (a + c)[..|a|] && b == (b + d)[..|b|];
    assert c == (a + c)[|a|..] && d == (b + d)[|b|..];
  }

  ghost predicate AllFull(fs: seq<Fragment>) {
    forall i :: 0 <= i < |fs| ==> |Payload(fs[i])| == MAX_FRAGMENT
  }

  ghost predicate NoneOver(fs: seq<Fragment>) {
    forall i :: 0 <= i < |fs| ==> |Payload(fs[i])| <= MAX_FRAGMENT
  }

  lemma {:induction false} ConcatLength(fs: seq<Fragment>)
    requires NoneOver(fs)
    ensures |Concat(fs)| <= MAX_FRAGMENT * |fs|
    ensures |Concat(fs)| == MAX_FRAGMENT * |fs| <==> AllFull(fs)
  {
    if fs != [] {
      var front := fs[..|fs| - 1];
      ConcatLength(front);
      assert AllFull(fs) <==> AllFull(front) && |Payload(fs[|fs| - 1])| == MAX_FRAGMENT by {
        assert fs == front + [fs[|fs| - 1]];
      }
    }
  }

  lemma FrontIsFull(q: uint32, x: seq<byte>)
    requires TotalFragments(|x|) > 0
    ensures AllFull(FragmentsOf(q, x)[..TotalFragments(|x|) - 1])
  {
    forall i: nat | i < TotalFragments(|x|) - 1 ensures |Payload(FragmentAt(q, x, i))| == MAX_FRAGMENT {
      PayloadAt(q, x, i);
      OffsetInsideFrame(|x|, i);
    }
  }

  /** Payloads in index order give the bytes sent if and only if each is that of its piece. That sizes cannot make up
      for each other takes one of two things: all but the final payload are full, or the final one has the size of the
      final piece. */
  lemma PayloadsExactIff(q: uint32, x: seq<byte>, sorted: seq<Fragment>)
    requires |sorted| == TotalFragments(|x|) > 0 && NoneOver(sorted)
    requires var n := |sorted| - 1;
      AllFull(sorted[..n]) || |Payload(sorted[n])| == |Payload(FragmentsOf(q, x)[n])|
    ensures Concat(sorted) == SentBytes(x) <==> SamePayloads(sorted, FragmentsOf(q, x))
  {
    hide FragmentsOf, FragmentAt, Payload, SentBytes;
    var all, n := FragmentsOf(q, x), |sorted| - 1;
    ConcatInOrder(q, x);
    FrontIsFull(q, x);
    if SamePayloads(sorted, all) {
      ConcatOfSame(sorted, all);
    }
    if Concat(sorted) == SentBytes(x) {
      ConcatLength(all[..n]);
      ConcatLength(sorted[..n]);
      SizesFromFront(sorted, all);
      SameConcat(sorted, all);
    }
  }

  lemma SizesFromFront(a: seq<Fragment>, b: seq<Fragment>)
    requires |a| == |b| > 0 && AllFull(a[..|a| - 1]) && AllFull(b[..|b| - 1])
    requires |Payload(a[|a| - 1])| == |Payload(b[|b| - 1])|
    ensures SameSizes(a, b)
  {
    forall i | 0 <= i < |a| - 1 ensures |Payload(a[i])| == |Payload(b[i])| {
      assert |Payload(a[..|a| - 1][i])| == |Payload(b[..|b| - 1][i])|;
    }
  }

  /** The fragment is cut from some frame of the length of `x`, under any number. */
  ghost predicate ShapedLike(x: seq<byte>, f: Fragment) {
    exists y, q: uint32 :: |y| == |x| && IsPieceOf(q, y, f)
  }

  lemma ShapedSize(x: seq<byte>, f: Fragment, q: uint32)
    requires ShapedLike(x, f)
    ensures f.index < TotalFragments(|x|) && (f.last <==> f.index == TotalFragments(|x|) - 1)
    ensures |Payload(f)| == |Payload(FragmentAt(q, x, f.index))| <= MAX_FRAGMENT
  {
    var y, p: uint32 :| |y| == |x| && IsPieceOf(p, y, f);
    PayloadAt(p, y, f.index);
    PayloadAt(q, x, f.index);
  }

  /** A set of the right count with a last-flagged fragment in it, cut from frames of the length of `x`: duplicates may
      be in it, and frames of other senders. The bytes it sorts to are those sent for `x` if and only if every payload
      is that of the piece of `x` at its place. */
  lemma BytesExactIff(q: uint32, x: seq<byte>, held: seq<Fragment>, sorted: seq<Fragment>)
    requires |held| == TotalFragments(|x|) && SortOf(held, sorted)
    requires forall k :: 0 <= k < |held| ==> ShapedLike(x, held[k])
    requires exists k :: 0 <= k < |held| && held[k].last
    ensures |sorted| == |held|
    ensures Concat(sorted) == SentBytes(x) <==> SamePayloads(sorted, FragmentsOf(q, x))
  {
    hide ShapedLike, FragmentAt, Payload, Concat, SentBytes, SamePayloads, SortOf;
    SameLength(held, sorted);
    forall i | 0 <= i < |sorted| ensures ShapedLike(x, sorted[i]) && |Payload(sorted[i])| <= MAX_FRAGMENT {
      FromHeld(held, sorted, i);
      ShapedSize(x, sorted[i], q);
    }
    var n := |sorted| - 1;
    LastIsFinal(x, held, sorted, q);
    assert FragmentsOf(q, x)[n] == FragmentAt(q, x, n);
    ShapedSize(x, sorted[n], q);
    PayloadsExactIff(q, x, sorted);
  }

  lemma FromHeld(held: seq<Fragment>, sorted: seq<Fragment>, i: nat)
    requires SortOf(held, sorted) && i < |sorted|
    ensures exists k :: 0 <= k < |held| && held[k] == sorted[i]
  {
    assert sorted[i] in multiset(held);
  }

  lemma LastIsFinal(x: seq<byte>, held: seq<Fragment>, sorted: seq<Fragment>, q: uint32)
    requires |held| == |sorted| == TotalFragments(|x|) && SortOf(held, sorted)
    requires forall i :: 0 <= i < |sorted| ==> ShapedLike(x, sorted[i])
    requires exists k :: 0 <= k < |held| && held[k].last
    ensures |sorted| > 0 && sorted[|sorted| - 1].index == |sorted| - 1
  {
    hide ShapedLike;
    var k :| 0 <= k < |held| && held[k].last;
    assert held[k] in multiset(sorted);
    var j :| 0 <= j < |sorted| && sorted[j] == held[k];
    ShapedSize(x, sorted[j], q);
    ShapedSize(x, sorted[|sorted| - 1], q);
    assert sorted[j].index <= sorted[|sorted| - 1].index;
  }

  /** The same for a receive step in any state: what is shown, and when it is `x`. */
  lemma ShownBytesIff(q: uint32, x: seq<byte>, r: Receiver, f: Fragment, r': Receiver) returns (sorted: seq<Fragment>)
    requires Receives(r, f, r') && f.last && |Held(r.buffer, f.frameSeq) + [f]| == f.total == TotalFragments(|x|)
    requires var held := Held(r.buffer, f.frameSeq) + [f];
      forall k :: 0 <= k < |held| ==> ShapedLike(x, held[k])
    ensures SortOf(Held(r.buffer, f.frameSeq) + [f], sorted)
    ensures |r'.shown| == |r.shown| + 1 && r'.shown[|r.shown|] == Output(f.frameSeq, Concat(sorted))
    ensures r'.shown[|r.shown|].bytes == SentBytes(x) <==> SamePayloads(sorted, FragmentsOf(q, x))
  {
    hide Concat, SentBytes, SamePayloads, ShapedLike, FragmentsOf;
    var held := Held(r.buffer, f.frameSeq) + [f];
    assert held[|held| - 1].last;
    sorted :| SortOf(held, sorted) && r'.shown[|r.shown|].bytes == Concat(sorted);
    BytesExactIff(q, x, held, sorted);
  }

  // ---------------------------------------------------------------- two runs

  ghost predicate IndexDecides(fs: seq<Fragment>) {
    forall i, j :: 0 <= i < j < |fs| && fs[i].index == fs[j].index ==> fs[i] == fs[j]
  }

  /** Sorting what is sorted already, with equal indices only on equal fragments, gives it back. */
  lemma {:induction false} SortOfSorted(fs: seq<Fragment>, sorted: seq<Fragment>)
    requires SortedByIndex(fs) && IndexDecides(fs) && SortOf(fs, sorted)
    ensures sorted == fs
  {
    SameLength(fs, sorted);
    if fs != [] {
      var n := |fs| - 1;
      SameLast(fs, sorted);
      WithoutLast(fs, sorted);
      SortOfSorted(fs[..n], sorted[..n]);
      assert fs == fs[..n] + [fs[n]] && sorted == sorted[..n] + [sorted[n]];
    }
  }

  lemma SameLength(fs: seq<Fragment>, sorted: seq<Fragment>)
    requires SortOf(fs, sorted)
    ensures |fs| == |sorted|
  {
    assert |multiset(fs)| == |fs| && |multiset(sorted)| == |sorted|;
  }

  lemma WithoutLast(fs: seq<Fragment>, sorted: seq<Fragment>)
    requires fs != [] && |fs| == |sorted| && fs[|fs| - 1] == sorted[|fs| - 1]
    requires SortedByIndex(fs) && IndexDecides(fs) && SortOf(fs, sorted)
    ensures var front, sortedFront := fs[..|fs| - 1], sorted[..|fs| - 1];
      SortedByIndex(front) && IndexDecides(front) && SortOf(front, sortedFront)
  {
    DropLast(fs);
    DropLast(sorted);
  }

  lemma DropLast(fs: seq<Fragment>)
    requires fs != []
    ensures multiset(fs[..|fs| - 1]) == multiset(fs) - multiset{fs[|fs| - 1]}
  {
    assert fs == fs[..|fs| - 1] + [fs[|fs| - 1]];
  }

  lemma SameLast(fs: seq<Fragment>, sorted: seq<Fragment>)
    requires fs != [] && |fs| == |sorted| && SortedByIndex(fs) && SortOf(fs, sorted) && IndexDecides(fs)
    ensures sorted[|fs| - 1] == fs[|fs| - 1]
  {
    var n := |fs| - 1;
    assert fs[n] in multiset(sorted);
    assert sorted[n] in multiset(fs);
    var i :| 0 <= i <= n && fs[i] == sorted[n];
    var j :| 0 <= j <= n && sorted[j] == fs[n];
    assert fs[i].index <= fs[n].index && sorted[j].index <= sorted[n].index;
  }

  /** One duplicated datagram, 0, 0, 2 of three: the receiver shows the frame with its first piece in place of the
      second. */
  lemma DuplicateBreaksFrame(frame: seq<byte>, r0: Receiver, r1: Receiver, r2: Receiver, r3: Receiver)
    requires |frame| == 3 * MAX_FRAGMENT && r0 == EMPTY_RECEIVER
    requires Receives(r0, FragmentAt(0, frame, 0), r1) && Receives(r1, FragmentAt(0, frame, 0), r2)
    requires Receives(r2, FragmentAt(0, frame, 2), r3)
    ensures |r3.shown| == 1 && r3.shown[0].frameSeq == 0
    ensures r3.shown[0].bytes == SentBytes(frame) <==>
      frame[..MAX_FRAGMENT] == frame[MAX_FRAGMENT..2 * MAX_FRAGMENT]
  {
    var a, c := FragmentAt(0, frame, 0), FragmentAt(0, frame, 2);
    RepeatedRun(a, c, r0, r1, r2, r3);
    RepeatedPiece(frame, a, c);
  }

  lemma RepeatedRun(a: Fragment, c: Fragment, r0: Receiver, r1: Receiver, r2: Receiver, r3: Receiver)
    requires a.frameSeq == c.frameSeq && a.index < c.index && !a.last && c.last && c.total == 3
    requires r0 == EMPTY_RECEIVER && Receives(r0, a, r1) && Receives(r1, a, r2) && Receives(r2, c, r3)
    ensures |r3.shown| == 1 && r3.shown[0] == Output(c.frameSeq, Concat([a, a, c]))
  {
    hide Concat, Reassembles;
    assert Held(r1.buffer, a.frameSeq) == [] + [a];
    assert Held(r2.buffer, a.frameSeq) == [] + [a] + [a];
    assert [] + [a] + [a] + [c] == [a, a, c];
    ShowsSorted(r2, c, r3, [a, a, c]);
  }

  lemma RepeatedPiece(frame: seq<byte>, a: Fragment, c: Fragment)
    requires |frame| == 3 * MAX_FRAGMENT && a == FragmentAt(0, frame, 0) && c == FragmentAt(0, frame, 2)
    ensures Concat([a, a, c]) == SentBytes(frame) <==>
      frame[..MAX_FRAGMENT] == frame[MAX_FRAGMENT..2 * MAX_FRAGMENT]
  {
    hide FragmentAt, Payload, Concat, SentBytes;
    assert TotalFragments(|frame|) == 3;
    PayloadAt(0, frame, 0);
    PayloadAt(0, frame, 1);
    PayloadAt(0, frame, 2);
    PayloadsExactIff(0, frame, [a, a, c]);
    assert frame[0 * MAX_FRAGMENT..MAX_FRAGMENT] == frame[..MAX_FRAGMENT];
  }

  lemma ShowsSorted(r: Receiver, f: Fragment, r': Receiver, held: seq<Fragment>)
    requires Receives(r, f, r') && held == Held(r.buffer, f.frameSeq) + [f] && f.last && |held| == f.total
    requires SortedByIndex(held) && IndexDecides(held)
    ensures |r'.shown| == |r.shown| + 1 && r'.shown[|r.shown|] == Output(f.frameSeq, Concat(held))
  {
    var output := r'.shown[|r.shown|];
    var sorted :| SortOf(held, sorted) && output.bytes == Concat(sorted);
    SortOfSorted(held, sorted);
  }

  /** Two senders that use the same frame number mix: the receiver shows the first half of one frame and the second
      half of the other. */
  lemma TwoSendersMix(x: seq<byte>, y: seq<byte>, r0: Receiver, r1: Receiver, r2: Receiver)
    requires |x| == |y| == 2 * MAX_FRAGMENT && r0 == EMPTY_RECEIVER
    requires Receives(r0, FragmentAt(0, x, 0), r1) && Receives(r1, FragmentAt(0, y, 1), r2)
    ensures |r2.shown| == 1
    ensures r2.shown[0].bytes == SentBytes(x) <==> x[MAX_FRAGMENT..] == y[MAX_FRAGMENT..]
    ensures r2.shown[0].bytes == SentBytes(y) <==> x[..MAX_FRAGMENT] == y[..MAX_FRAGMENT]
  {
    var a, c := FragmentAt(0, x, 0), FragmentAt(0, y, 1);
    PairRun(a, c, r0, r1, r2);
    MixedPieces(x, y, x, a, c);
    MixedPieces(x, y, y, a, c);
  }

  lemma PairRun(a: Fragment, c: Fragment, r0: Receiver, r1: Receiver, r2: Receiver)
    requires a.frameSeq == c.frameSeq && a.index < c.index && !a.last && c.last && c.total == 2
    requires r0 == EMPTY_RECEIVER && Receives(r0, a, r1) && Receives(r1, c, r2)
    ensures |r2.shown| == 1 && r2.shown[0] == Output(c.frameSeq, Concat([a, c]))
  {
    hide Concat, Reassembles;
    assert Held(r1.buffer, a.frameSeq) == [] + [a];
    assert [] + [a] + [c] == [a, c];
    ShowsSorted(r1, c, r2, [a, c]);
  }

  lemma MixedPieces(x: seq<byte>, y: seq<byte>, z: seq<byte>, a: Fragment, c: Fragment)
    requires |x| == |y| == |z| == 2 * MAX_FRAGMENT && a == FragmentAt(0, x, 0) && c == FragmentAt(0, y, 1)
    ensures Concat([a, c]) == SentBytes(z) <==>
      x[..MAX_FRAGMENT] == z[..MAX_FRAGMENT] && y[MAX_FRAGMENT..] == z[MAX_FRAGMENT..]
  {
    hide FragmentAt, Payload, Concat, SentBytes;
    assert TotalFragments(|z|) == 2;
    Halves(x);
    Halves(y);
    Halves(z);
    PayloadsExactIff(0, z, [a, c]);
  }

  lemma Halves(x: seq<byte>)
    requires |x| == 2 * MAX_FRAGMENT
    ensures TotalFragments(|x|) == 2
    ensures Payload(FragmentAt(0, x, 0)) == x[..MAX_FRAGMENT] && Payload(FragmentAt(0, x, 1)) == x[MAX_FRAGMENT..]
  {
    PayloadAt(0, x, 0);
    PayloadAt(0, x, 1);
  }
}

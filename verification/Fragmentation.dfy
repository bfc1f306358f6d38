/** How the video sender cuts an encoded frame into datagrams (Online_AV/Online_AV.cpp, Video_Fragment and the
    fragmentation loop of VideoRecandSend). */
module Fragmentation {
  import opened Basics

  const MAX_FRAGMENT: nat := 1400

  /** A whole video datagram: a data array of which the first `size` bytes count. */
  datatype Fragment = Fragment(
    frameSeq: uint32,
    index: uint32,
    total: uint32,
    last: bool,
    size: nat,
    data: seq<byte>)

  /** The bytes appended to the frame. A size beyond the array, which no sender of this program writes, would read
      past its end; here it stops there. */
  function Payload(f: Fragment): seq<byte> {
    f.data[..Min(f.size, |f.data|)]
  }

  function Concat(fs: seq<Fragment>): seq<byte> {
    if fs == [] then [] else Concat(fs[..|fs| - 1]) + Payload(fs[|fs| - 1])
  }

  /** The source computes the count in 64-bit arithmetic and stores it in 32 bits. */
  function TotalFragments(n: nat): uint32 {
    (n + MAX_FRAGMENT - 1) % TWO_64 / MAX_FRAGMENT % TWO_32
  }

  /** The mathematical ceiling of n / 1400. */
  function PiecesNeeded(n: nat): nat {
    (n + MAX_FRAGMENT - 1) / MAX_FRAGMENT
  }

  /** The frames whose fragment count fits the 32-bit field. */
  predicate Fits(frame: seq<byte>) {
    PiecesNeeded(|frame|) < TWO_32
  }

  /** Every fragment starts strictly inside the frame: the subtraction frame_size - offset never underflows. */
  lemma OffsetInsideFrame(n: nat, i: nat)
    requires i < TotalFragments(n)
    ensures i * MAX_FRAGMENT < n
    ensures i < TotalFragments(n) - 1 ==> (i + 1) * MAX_FRAGMENT < n
  {
    var m := (n + MAX_FRAGMENT - 1) % TWO_64;
    assert m <= n + MAX_FRAGMENT - 1;
    assert TotalFragments(n) <= m / MAX_FRAGMENT;
  }

  function FragmentAt(frameSeq: uint32, frame: seq<byte>, i: nat): Fragment
    requires i < TotalFragments(|frame|)
  {
    OffsetInsideFrame(|frame|, i);
    var total := TotalFragments(|frame|);
    var offset := i * MAX_FRAGMENT;
    var size := Min(MAX_FRAGMENT, |frame| - offset);
    Fragment(frameSeq, i, total, i == total - 1, size,
           frame[offset..offset + size] + seq(MAX_FRAGMENT - size, _ => 0))
  }

  function FragmentsOf(frameSeq: uint32, frame: seq<byte>): (fs: seq<Fragment>)
    ensures |fs| == TotalFragments(|frame|)
    ensures forall i :: 0 <= i < |fs| ==> fs[i] == FragmentAt(frameSeq, frame, i)
  {
    seq(TotalFragments(|frame|), i requires 0 <= i < TotalFragments(|frame|) => FragmentAt(frameSeq, frame, i))
  }

  lemma PayloadAt(frameSeq: uint32, frame: seq<byte>, i: nat)
    requires i < TotalFragments(|frame|)
    ensures i * MAX_FRAGMENT < |frame|
    ensures Payload(FragmentAt(frameSeq, frame, i)) == frame[i * MAX_FRAGMENT..Min(|frame|, (i + 1) * MAX_FRAGMENT)]
  {
    OffsetInsideFrame(|frame|, i);
  }

  /** The bytes that travel: all of a frame that fits, a prefix of one that does not. */
  function SentBytes(frame: seq<byte>): seq<byte> {
    frame[..Min(|frame|, TotalFragments(|frame|) * MAX_FRAGMENT)]
  }

  lemma {:induction false} PrefixConcat(frameSeq: uint32, frame: seq<byte>, i: nat)
    requires i <= TotalFragments(|frame|)
    ensures Concat(FragmentsOf(frameSeq, frame)[..i]) == frame[..Min(|frame|, i * MAX_FRAGMENT)]
  {
    var fs := FragmentsOf(frameSeq, frame);
    if i > 0 {
      PrefixConcat(frameSeq, frame, i - 1);
      PayloadAt(frameSeq, frame, i - 1);
      assert fs[..i][..i - 1] == fs[..i - 1];
      JoinSlices(frame, (i - 1) * MAX_FRAGMENT, Min(|frame|, i * MAX_FRAGMENT));
    }
  }

  lemma JoinSlices(frame: seq<byte>, from: nat, to: nat)
    requires from <= to <= |frame|
    ensures frame[..from] + frame[from..to] == frame[..to]
  {
  }

  lemma ConcatInOrder(frameSeq: uint32, frame: seq<byte>)
    ensures Concat(FragmentsOf(frameSeq, frame)) == SentBytes(frame)
  {
    var fs := FragmentsOf(frameSeq, frame);
    PrefixConcat(frameSeq, frame, |fs|);
    assert fs[..|fs|] == fs;
  }

  /** The fragments put back in order are the frame, exactly for the frames whose count fits 32 bits. */
  lemma FragmentsCarryFrame(frameSeq: uint32, frame: seq<byte>)
    ensures Concat(FragmentsOf(frameSeq, frame)) == frame <==> Fits(frame)
    ensures SentBytes(frame) == frame <==> Fits(frame)
  {
    ConcatInOrder(frameSeq, frame);
    CountExact(|frame|);
    assert frame[..|frame|] == frame;
  }

  lemma CountExact(n: nat)
    ensures n <= TotalFragments(n) * MAX_FRAGMENT <==> PiecesNeeded(n) < TWO_32
    ensures PiecesNeeded(n) < TWO_32 ==> TotalFragments(n) == PiecesNeeded(n)
  {
    if PiecesNeeded(n) < TWO_32 {
      assert n + MAX_FRAGMENT - 1 < TWO_64;
    } else {
      assert TotalFragments(n) * MAX_FRAGMENT <= (TWO_32 - 1) * MAX_FRAGMENT < n;
    }
  }

  /** Up to the longest frames a 64-bit sum can round up, the count is the ceiling reduced to 32 bits: a frame of 2^32
      pieces and one more is sent as one. */
  lemma TotalIsWrapped(n: nat)
    requires n + 1399 < TWO_64
    ensures TotalFragments(n) == (n + 1399) / 1400 % TWO_32
  {
  }

  /** Shape of the pieces of a frame that fits: ceil(n / 1400) of them, all full but the final one, which is not
      empty, and the last flag on the final one alone. */
  lemma FragmentShape(frameSeq: uint32, frame: seq<byte>)
    requires Fits(frame)
    ensures var fs := FragmentsOf(frameSeq, frame);
      && |fs| == (|frame| + 1399) / 1400
      && (fs == [] <==> frame == [])
      && (forall i :: 0 <= i < |fs| - 1 ==> fs[i].size == 1400 && !fs[i].last)
      && (fs != [] ==>
            && fs[|fs| - 1].last
            && fs[|fs| - 1].size == |frame| - (|fs| - 1) * 1400
            && 1 <= fs[|fs| - 1].size <= 1400)
  {
    var fs, n := FragmentsOf(frameSeq, frame), |frame|;
    TotalIsWrapped(n);
    assert |fs| == PiecesNeeded(n);
    forall i | 0 <= i < |fs| - 1 ensures fs[i].size == MAX_FRAGMENT && !fs[i].last {
      OffsetInsideFrame(n, i);
    }
    if fs != [] {
      OffsetInsideFrame(n, |fs| - 1);
      assert n <= |fs| * MAX_FRAGMENT;
    }
  }

  /** What a fragment carries beside the slice: its frame's number, its index, the count, and an array of 1400 bytes
      that is zero behind the slice. */
  lemma FragmentFields(frameSeq: uint32, frame: seq<byte>, i: nat)
    requires i < TotalFragments(|frame|)
    ensures var f := FragmentsOf(frameSeq, frame)[i];
      && f.frameSeq == frameSeq && f.index == i && f.total == |FragmentsOf(frameSeq, frame)|
      && (f.last <==> i + 1 == f.total)
      && |f.data| == 1400 && 1 <= f.size <= 1400 && forall j :: f.size <= j < 1400 ==> f.data[j] == 0
  {
    OffsetInsideFrame(|frame|, i);
  }

  /** Fragments of one frame differ in their index; fragments of different frames in their frame number. */
  lemma FragmentsDistinct(frameSeq: uint32, frame: seq<byte>)
    ensures Distinct(FragmentsOf(frameSeq, frame))
  {
  }

  /** The body of the sending loop that builds fragment `i`. By OffsetInsideFrame its 64-bit offset and size cannot
      wrap. */
  method BuildFragment(frameSeq: uint32, frame: seq<byte>, i: uint32, total: uint32) returns (f: Fragment)
    requires total == TotalFragments(|frame|) && i < total
    ensures f == FragmentsOf(frameSeq, frame)[i]
    ensures Payload(f) == frame[i * MAX_FRAGMENT..Min(|frame|, (i + 1) * MAX_FRAGMENT)]
  {
    OffsetInsideFrame(|frame|, i);
    var offset := i * MAX_FRAGMENT;
    var size := Min(MAX_FRAGMENT, |frame| - offset);
    var data := new byte[MAX_FRAGMENT](_ => 0);
    // memcpy
    for k := 0 to size
      invariant forall j :: 0 <= j < k ==> data[j] == frame[offset + j]
      invariant forall j :: k <= j < MAX_FRAGMENT ==> data[j] == 0
    {
      data[k] := frame[offset + k];
    }
    f := Fragment(frameSeq, i, total, i == total - 1, size, data[..]);
    assert data[..] == frame[offset..offset + size] + seq(MAX_FRAGMENT - size, _ => 0);
  }
}

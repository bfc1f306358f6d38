/** The receive loop of the video stream as a program (Online_AV/Online_AV.cpp, VideoPlayback), proved against the
    receiver of module Reassembly. */
module VideoPlayback {
  import opened Basics
  import opened Fragmentation
  import opened Reassembly

  method Insert(sorted: seq<Fragment>, f: Fragment) returns (r: seq<Fragment>)
    requires SortedByIndex(sorted)
    ensures SortedByIndex(r) && multiset(r) == multiset(sorted) + multiset{f}
  {
    var k := |sorted|;
    while k > 0 && sorted[k - 1].index > f.index
      invariant 0 <= k <= |sorted|
      invariant k < |sorted| ==> f.index < sorted[k].index
    {
      k := k - 1;
    }
    InsertedSorted(sorted, f, k);
    assert sorted == sorted[..k] + sorted[k..];
    r := sorted[..k] + [f] + sorted[k..];
  }

  /** Stands for std::sort, of which only the contract matters. */
  method SortByIndex(fs: seq<Fragment>) returns (sorted: seq<Fragment>)
    ensures SortOf(fs, sorted)
  {
    sorted := [];
    for n := 0 to |fs|
      invariant SortedByIndex(sorted) && multiset(sorted) == multiset(fs[..n])
    {
      sorted := Insert(sorted, fs[n]);
      assert fs[..n + 1] == fs[..n] + [fs[n]];
    }
    assert fs[..|fs|] == fs;
  }

  /** The fragments among the results of recv; None is a failed call, which the loop skips. */
  function Arrived(results: seq<Option<Fragment>>): seq<Fragment> {
    if results == [] then [] else
      Arrived(results[..|results| - 1])
      + (if results[|results| - 1].Some? then [results[|results| - 1].value] else [])
  }

  /** Failed calls leave no trace, the others their fragments, in order. */
  lemma {:induction false} ArrivedOrder(a: seq<Option<Fragment>>, b: seq<Option<Fragment>>)
    ensures Arrived(a + b) == Arrived(a) + Arrived(b)
  {
    if b == [] {
      assert a + b == a;
    } else {
      ArrivedOrder(a, b[..|b| - 1]);
      assert (a + b)[..|a + b| - 1] == a + b[..|b| - 1];
    }
  }

  lemma ArrivedOne(f: Fragment)
    ensures Arrived([None]) == [] && Arrived([Some(f)]) == [f]
  {
    assert [Some(f)][..0] == [];
  }

  lemma ReassembledBy(fs: seq<Fragment>, sorted: seq<Fragment>)
    requires SortOf(fs, sorted)
    ensures Reassembles(fs, Concat(sorted))
  {
  }

  lemma ConcatNone(fs: seq<Fragment>)
    ensures Concat(fs[..0]) == []
  {
  }

  lemma ConcatOneMore(fs: seq<Fragment>, k: nat)
    requires k < |fs|
    ensures Concat(fs[..k + 1]) == Concat(fs[..k]) + Payload(fs[k])
  {
    assert fs[..k + 1][..k] == fs[..k];
  }

  class Playback {
    var fragmentBuffer: map<uint32, seq<Fragment>>
    var reassembledFrame: seq<byte>
    var shown: seq<Output>
    ghost var delivered: seq<Fragment>
    ghost var consumed: seq<Fragment>

    ghost function View(): Receiver
      reads this
    {
      Receiver(fragmentBuffer, shown, delivered, consumed)
    }

    constructor ()
      ensures View() == EMPTY_RECEIVER
    {
      fragmentBuffer, reassembledFrame, shown := map[], [], [];
      delivered, consumed := [], [];
    }

    /** The body of the loop after a successful recv. */
    method OnFragment(fragment: Fragment)
      modifies this
      ensures Receives(old(View()), fragment, View())
      ensures shown != old(shown) ==> reassembledFrame == shown[|shown| - 1].bytes
    {
      hide Concat, Payload, SortOf, Reassembles;
      var q := fragment.frameSeq;
      delivered := delivered + [fragment];
      fragmentBuffer := fragmentBuffer[q := Held(fragmentBuffer, q) + [fragment]];
      if fragment.last {
        var fragments := fragmentBuffer[q];
        if |fragments| == fragment.total {
          reassembledFrame := [];
          var sorted := SortByIndex(fragments);
          ConcatNone(sorted);
          for k := 0 to |sorted|
            modifies this`reassembledFrame
            invariant reassembledFrame == Concat(sorted[..k])
          {
            ConcatOneMore(sorted, k);
            reassembledFrame := reassembledFrame + Payload(sorted[k]);
          }
          assert sorted[..|sorted|] == sorted;
          ReassembledBy(fragments, sorted);
          shown := shown + [Output(q, reassembledFrame)];
          consumed := consumed + fragments;
          fragmentBuffer := fragmentBuffer - {q};
        }
      }
    }

    /** The whole loop, over any results of recv. Nothing received is ever lost or counted twice; and if what arrived
        is a duplicate-free selection of the fragments of `frames`, in any order, the frames shown are exactly
        those whose last-flagged fragment arrived after all their others, with the bytes that were sent. */
    method Run(results: seq<Option<Fragment>>, ghost frames: seq<seq<byte>>)
      requires View() == EMPTY_RECEIVER
      modifies this
      ensures delivered == Arrived(results) && Conserves(View())
      ensures Clean(frames, Arrived(results)) ==> ReceiverInvariant(frames, View())
    {
      for n := 0 to |results|
        invariant delivered == Arrived(results[..n]) && Conserves(View())
        invariant Clean(frames, Arrived(results)) ==> ReceiverInvariant(frames, View())
      {
        ghost var before := View();
        if results[n].Some? {
          OnFragment(results[n].value);
        }
        ArrivedStep(results, n);
        PlaybackStep(frames, Arrived(results), before, View(), results[n]);
      }
      assert results[..|results|] == results;
    }
  }

  lemma PlaybackStep(frames: seq<seq<byte>>, everything: seq<Fragment>, r: Receiver, r': Receiver,
                     result: Option<Fragment>)
    requires Conserves(r) && r'.delivered <= everything
    requires if result.Some? then Receives(r, result.value, r') else r' == r
    requires Clean(frames, everything) ==> ReceiverInvariant(frames, r)
    ensures Conserves(r')
    ensures Clean(frames, everything) ==> ReceiverInvariant(frames, r')
  {
    if result.Some? {
      ConservationStep(r, result.value, r');
      if Clean(frames, everything) {
        NextIsNew(frames, everything, r.delivered, result.value);
        ReceiverStep(frames, r, result.value, r');
      }
    }
  }

  lemma NextIsNew(frames: seq<seq<byte>>, everything: seq<Fragment>, before: seq<Fragment>, f: Fragment)
    requires Clean(frames, everything) && before + [f] <= everything
    ensures Genuine(frames, f) && f !in before
  {
    assert everything[|before|] == (before + [f])[|before|] == f;
    forall k | 0 <= k < |before| ensures before[k] != f {
      assert everything[k] == (before + [f])[k] == before[k];
    }
  }

  lemma ArrivedStep(results: seq<Option<Fragment>>, n: nat)
    requires n < |results|
    ensures Arrived(results[..n + 1])
      == Arrived(results[..n]) + (if results[n].Some? then [results[n].value] else [])
    ensures Arrived(results[..n + 1]) <= Arrived(results)
  {
    assert results[..n + 1][..n] == results[..n];
    ArrivedPrefix(results, n + 1);
  }

  lemma {:induction false} ArrivedPrefix(results: seq<Option<Fragment>>, n: nat)
    requires n <= |results|
    ensures Arrived(results[..n]) <= Arrived(results)
    decreases |results| - n
  {
    if n < |results| {
      ArrivedPrefix(results, n + 1);
      assert results[..n + 1][..n] == results[..n];
    } else {
      assert results[..n] == results;
    }
  }
}

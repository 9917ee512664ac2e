/** What a receiver hands on: the ordered stream, and every other frame as it comes. */
module Handing {
  import opened Frames
  import opened ReceiveQueues
  import opened Sessions

  /** The frames that carry no order index, in order. */
  function Unordered(frames: seq<Frame>): seq<Frame> {
    if frames == [] then []
    else
      var last := frames[|frames| - 1];
      Unordered(frames[..|frames| - 1]) + if last.reliability.IsSequencedOrOrdered() then [] else [last]
  }

  /** The frames that do. */
  function InSequence(frames: seq<Frame>): seq<Frame> {
    if frames == [] then []
    else
      var last := frames[|frames| - 1];
      InSequence(frames[..|frames| - 1]) + if last.reliability.IsSequencedOrOrdered() then [last] else []
  }

  /** Everything that waits to be released carries an order index. */
  ghost predicate HoldsOrdered(r: RecvState) {
    && (forall o :: o in r.packetQueue ==> r.packetQueue[o].reliability.IsSequencedOrOrdered())
    && (forall id :: id in r.splits.pool ==> r.splits.pool[id].reliability.IsSequencedOrOrdered())
  }

  ghost predicate AllOrdered(frames: seq<Frame>) {
    forall i :: 0 <= i < |frames| ==> frames[i].reliability.IsSequencedOrOrdered()
  }

  lemma FiltersSnoc(frames: seq<Frame>, f: Frame)
    ensures Unordered(frames + [f]) == Unordered(frames) + Unordered([f])
    ensures InSequence(frames + [f]) == InSequence(frames) + InSequence([f])
  {
    assert (frames + [f])[..|frames|] == frames && [f][..0] == [];
  }

  lemma {:induction false} FiltersJoin(a: seq<Frame>, b: seq<Frame>)
    ensures Unordered(a + b) == Unordered(a) + Unordered(b)
    ensures InSequence(a + b) == InSequence(a) + InSequence(b)
  {
    if b == [] {
      assert a + b == a;
    } else {
      var front, last := b[..|b| - 1], b[|b| - 1];
      assert b == front + [last];
      Regrouped(a, front, [last]);
      FiltersJoin(a, front);
      FiltersSnoc(front, last);
      FiltersSnoc(a + front, last);
      Regrouped(Unordered(a), Unordered(front), Unordered([last]));
      Regrouped(InSequence(a), InSequence(front), InSequence([last]));
    }
  }

  lemma {:induction false} AllOrderedIs(frames: seq<Frame>)
    requires AllOrdered(frames)
    ensures Unordered(frames) == [] && InSequence(frames) == frames
  {
    if frames != [] {
      AllOrderedIs(frames[..|frames| - 1]);
      assert frames == frames[..|frames| - 1] + [frames[|frames| - 1]];
    }
  }

  lemma {:induction false} UnorderedHas(frames: seq<Frame>, f: Frame)
    ensures f in Unordered(frames) <==> f in frames && !f.reliability.IsSequencedOrOrdered()
  {
    if frames != [] {
      UnorderedHas(frames[..|frames| - 1], f);
      assert frames == frames[..|frames| - 1] + [frames[|frames| - 1]];
    }
  }

  lemma {:induction false} DueIsOrdered(queue: map<nat, Frame>, lo: nat, hi: nat)
    requires forall o :: o in queue ==> queue[o].reliability.IsSequencedOrOrdered()
    ensures AllOrdered(DueFrom(queue, lo, hi))
    decreases if lo <= hi then hi - lo else 0
  {
    if lo < hi && lo in queue { DueIsOrdered(queue, lo + 1, hi); }
  }

  lemma AddHoldsOrdered(r: RecvState, f: Frame)
    requires HoldsOrdered(r) && f.reliability.IsSequencedOrOrdered()
    ensures HoldsOrdered(r.Add(f)) && HoldsOrdered(r.Add(f).Released()) && AllOrdered(r.Add(f).Due())
  {
    DueIsOrdered(r.Add(f).packetQueue, r.Add(f).min, r.Add(f).max);
  }

  /** One frame: without an order index it is handed on at once; with one, what is handed
      on is what the receiving queue releases. */
  lemma OneIsHanded(rx: Receiver, f: Frame)
    requires HoldsOrdered(rx.received)
    ensures HoldsOrdered(rx.ReceivePacket(f).received)
    ensures Unordered(rx.Handed(f)) == Unordered([f])
    ensures InSequence(rx.Handed(f)) == rx.Ordered(f)
  {
    assert [f][..0] == [];
    if f.reliability.IsSequencedOrOrdered() {
      AddHoldsOrdered(rx.received, f);
      AllOrderedIs(rx.received.Add(f).Due());
    }
  }

  /** Whatever frames a datagram brings, the ones without an order index are all handed on,
      in the order in which they stand there; what is handed on besides is what the
      receiving queue releases, in that order. */
  lemma {:induction false} HandingIsExact(rx: Receiver, frames: seq<Frame>)
    requires HoldsOrdered(rx.received)
    ensures Unordered(rx.HandedAll(frames)) == Unordered(frames)
    ensures InSequence(rx.HandedAll(frames)) == rx.OrderedAll(frames)
    ensures HoldsOrdered(rx.ReceiveAll(frames).received)
  {
    if frames != [] {
      var front, last := frames[..|frames| - 1], frames[|frames| - 1];
      assert frames == front + [last];
      HandingIsExact(rx, front);
      FiltersSnoc(front, last);
      OneMoreIsHanded(rx, front, last);
    }
  }

  lemma OneMoreIsHanded(rx: Receiver, front: seq<Frame>, last: Frame)
    requires HoldsOrdered(rx.ReceiveAll(front).received)
    ensures HoldsOrdered(rx.ReceiveAll(front + [last]).received)
    ensures Unordered(rx.HandedAll(front + [last])) == Unordered(rx.HandedAll(front)) + Unordered([last])
    ensures rx.OrderedAll(front + [last]) == rx.OrderedAll(front) + rx.ReceiveAll(front).Ordered(last)
    ensures InSequence(rx.HandedAll(front + [last])) ==
      InSequence(rx.HandedAll(front)) + rx.ReceiveAll(front).Ordered(last)
  {
    var r := rx.ReceiveAll(front);
    assert (front + [last])[..|front|] == front;
    OneIsHanded(r, last);
    FiltersJoin(rx.HandedAll(front), r.Handed(last));
  }

  /** And nothing is handed on late: after any number of the frames of a datagram, all of
      this holds of those. */
  lemma {:induction false} HandedAsTheyCome(rx: Receiver, frames: seq<Frame>, n: nat)
    requires n <= |frames|
    ensures rx.HandedAll(frames[..n]) <= rx.HandedAll(frames)
    decreases |frames|
  {
    if n == |frames| {
      assert frames[..n] == frames;
    } else {
      HandedAsTheyCome(rx, frames[..|frames| - 1], n);
      assert frames[..|frames| - 1][..n] == frames[..n];
    }
  }
}

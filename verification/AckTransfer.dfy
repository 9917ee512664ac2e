/** One report on its way back: `ACKQueue.Clear`, the wire, and the peer's queue. */
module AckTransfers {
  import opened Frames
  import opened SendQueues
  import opened AckQueues
  import opened AckCodec
  import opened Endpoints

  function HandleAll(e: Endpoint, packets: seq<bytes>, now: nat): Endpoint
    requires forall i :: 0 <= i < |packets| ==> packets[i] != []
  {
    if packets == [] then e
    else HandleAll(e, packets[..|packets| - 1], now).Handle(packets[|packets| - 1], now)
  }

  lemma {:induction false} ReceivedAllJoin(q: SendQueue, a: seq<nat>, b: seq<nat>)
    ensures q.ReceivedAll(a + b) == q.ReceivedAll(a).ReceivedAll(b)
    decreases |a|
  {
    if a == [] {
      assert a + b == b;
    } else {
      assert (a + b)[1..] == a[1..] + b;
      ReceivedAllJoin(q.Received(a[0]), a[1..], b);
    }
  }

  lemma {:induction false} ResendAllJoin(q: SendQueue, a: seq<nat>, b: seq<nat>, now: nat)
    ensures q.ResendAll(a + b, now) == q.ResendAll(a, now).ResendAll(b, now)
    decreases |a|
  {
    if a == [] {
      assert a + b == b;
    } else {
      assert (a + b)[1..] == a[1..] + b;
      ResendAllJoin(q.Resend(a[0], now), a[1..], b, now);
    }
  }

  lemma {:induction false} PacketsNotEmpty(id: byte, ranges: seq<Range>)
    requires RangesFit(ranges)
    ensures forall i :: 0 <= i < |Packets(id, ranges)| ==> Packets(id, ranges)[i] != []
  {
    if ranges != [] { PacketsNotEmpty(id, ranges[..|ranges| - 1]); }
  }

  lemma HandleAllSnoc(e: Endpoint, front: seq<bytes>, last: bytes, now: nat)
    requires last != [] && forall i :: 0 <= i < |front| ==> front[i] != []
    ensures HandleAll(e, front + [last], now) == HandleAll(e, front, now).Handle(last, now)
  {
    assert (front + [last])[..|front|] == front;
  }

  lemma {:induction false} AcksAreHandled(e: Endpoint, ranges: seq<Range>, now: nat)
    requires RangesFit(ranges)
    ensures forall i :: 0 <= i < |Packets(ACK_ID, ranges)| ==> Packets(ACK_ID, ranges)[i] != []
    ensures HandleAll(e, Packets(ACK_ID, ranges), now) ==
      e.(tx := e.tx.(queue := e.tx.queue.ReceivedAll(Covered(ranges))))
  {
    PacketsNotEmpty(ACK_ID, ranges);
    if ranges == [] { return; }
    var front, last := ranges[..|ranges| - 1], ranges[|ranges| - 1];
    AcksAreHandled(e, front, now);
    PacketHandled(HandleAll(e, Packets(ACK_ID, front), now), ACK_ID, last, now);
    HandleAllSnoc(e, Packets(ACK_ID, front), EncodePacket(ACK_ID, NewRecord(last)), now);
    ReceivedAllJoin(e.tx.queue, Covered(front), Numbers(last));
  }

  lemma {:induction false} NacksAreHandled(e: Endpoint, ranges: seq<Range>, now: nat)
    requires RangesFit(ranges)
    ensures forall i :: 0 <= i < |Packets(NACK_ID, ranges)| ==> Packets(NACK_ID, ranges)[i] != []
    ensures HandleAll(e, Packets(NACK_ID, ranges), now) ==
      e.(tx := e.tx.(queue := e.tx.queue.ResendAll(Covered(ranges), now)))
  {
    PacketsNotEmpty(NACK_ID, ranges);
    if ranges == [] { return; }
    var front, last := ranges[..|ranges| - 1], ranges[|ranges| - 1];
    NacksAreHandled(e, front, now);
    PacketHandled(HandleAll(e, Packets(NACK_ID, front), now), NACK_ID, last, now);
    HandleAllSnoc(e, Packets(NACK_ID, front), EncodePacket(NACK_ID, NewRecord(last)), now);
    ResendAllJoin(e.tx.queue, Covered(front), Numbers(last), now);
  }

  /** `ranges` is `sent` in some other order, with some of it repeated. */
  ghost predicate Shuffled(ranges: seq<Range>, sent: seq<Range>) {
    forall r :: r in ranges <==> r in sent
  }

  lemma ShuffledNames(ranges: seq<Range>, sent: seq<Range>, k: nat)
    requires Shuffled(ranges, sent)
    ensures k in Covered(ranges) <==> k in Covered(sent)
  {
    NamesIsCovered(ranges, k);
    NamesIsCovered(sent, k);
    if Names(ranges, k) {
      var i :| 0 <= i < |ranges| && ranges[i].0 <= k <= ranges[i].1;
      assert ranges[i] in sent;
    }
    if Names(sent, k) {
      var i :| 0 <= i < |sent| && sent[i].0 <= k <= sent[i].1;
      assert sent[i] in ranges;
    }
  }

  lemma ShuffledFits(ranges: seq<Range>, sent: seq<Range>)
    requires Shuffled(ranges, sent) && RangesFit(sent)
    ensures RangesFit(ranges)
  {
    forall i | 0 <= i < |ranges|
      ensures ranges[i].0 < 0x100_0000 && ranges[i].1 < 0x100_0000
    {
      assert ranges[i] in sent;
    }
  }

  /** However the ACK packets of a report are reordered or repeated on the way, together
      they remove from the peer's queue exactly the frame sets whose numbers were stored. */
  lemma AckTransferIsExact(e: Endpoint, acks: AckState, ranges: seq<Range>, now: nat)
    requires acks.Valid() && acks.highest <= 0x100_0000 && e.tx.queue.Consistent()
    requires Shuffled(ranges, acks.Acks())
    ensures RangesFit(ranges)
    ensures forall i :: 0 <= i < |Packets(ACK_ID, ranges)| ==> Packets(ACK_ID, ranges)[i] != []
    ensures HandleAll(e, Packets(ACK_ID, ranges), now) == e.(tx := e.tx.(queue := e.tx.queue.Without(acks.store)))
  {
    ReportFits(acks);
    ShuffledFits(ranges, acks.Acks());
    AcksAreHandled(e, ranges, now);
    CoveredRanges(acks.store, acks.lowest, acks.highest);
    ListingIsSorted(acks.store, acks.lowest, acks.highest);
    forall k: nat
      ensures k in Covered(ranges) <==> k in acks.store
    {
      ShuffledNames(ranges, acks.Acks(), k);
    }
    ReceivedAllIsWithout(e.tx.queue, Covered(ranges));
    assert Elems(Covered(ranges)) == acks.store;
  }

  lemma {:induction false} CoveredSingles(missing: seq<nat>)
    ensures Covered(Singles(missing)) == missing
  {
    if missing != [] { CoveredSingles(missing[..|missing| - 1]); }
  }

  /** However its NACK packets are reordered or repeated, together they give every missing
      frame set that is still queued one fresh number each, its frames unchanged, and leave
      all others alone: the set numbered `moved[i]` becomes the set numbered `max + i`. */
  lemma NackTransferIsExact(e: Endpoint, acks: AckState, ranges: seq<Range>, now: nat) returns (moved: seq<nat>)
    requires acks.Valid() && acks.highest <= 0x100_0000
    requires e.tx.queue.Valid() && acks.highest <= e.tx.queue.sendMin
    requires Shuffled(ranges, Singles(acks.Nacks()))
    ensures RangesFit(ranges)
    ensures forall i :: 0 <= i < |Packets(NACK_ID, ranges)| ==> Packets(NACK_ID, ranges)[i] != []
    ensures Enumerates(moved, e.tx.queue.queue.Keys * Elems(acks.Nacks()))
    ensures var r := HandleAll(e, Packets(NACK_ID, ranges), now);
            r == e.(tx := e.tx.(queue := r.tx.queue)) && Renumbered(e.tx.queue, r.tx.queue, moved)
  {
    ReportFits(acks);
    ShuffledFits(ranges, Singles(acks.Nacks()));
    NacksAreHandled(e, ranges, now);
    CoveredSingles(acks.Nacks());
    GapsAreSorted(acks.store, acks.lowest, acks.highest);
    forall k: nat
      ensures k in Covered(ranges) <==> k in acks.Nacks()
    {
      ShuffledNames(ranges, Singles(acks.Nacks()), k);
    }
    assert Elems(Covered(ranges)) == Elems(acks.Nacks());
    ResendAllIsRenumberAll(e.tx.queue, Covered(ranges), now);
    RenumberAllEffect(e.tx.queue, Covered(ranges), now);
    PickedIs(Covered(ranges), e.tx.queue.queue.Keys);
    moved := Picked(Covered(ranges), e.tx.queue.queue.Keys);
  }
}

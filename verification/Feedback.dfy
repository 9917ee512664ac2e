/** What feedback does to the next emission, whoever it comes from: an ACK or a NACK that
    takes away a number still waiting to be emitted leaves a hole, and the emission loop
    stops the program at the hole. */
module Feedbacks {
  import opened Frames
  import opened Wire
  import opened SendQueues
  import opened AckQueues
  import opened AckCodec
  import opened Endpoints

  ghost predicate Hole(q: SendQueue, h: nat) {
    q.sendMin <= h < q.max && h !in q.queue
  }

  lemma {:induction false} RenumberAllKeepsHole(q: SendQueue, ks: seq<nat>, now: nat, h: nat)
    requires Hole(q, h)
    ensures Hole(q.RenumberAll(ks, now), h)
    decreases |ks|
  {
    if ks != [] {
      RenumberAllKeepsHole(if ks[0] in q.queue then q.Renumber(ks[0], now) else q, ks[1..], now, h);
    }
  }

  lemma HoleStopsFlush(q: SendQueue, now: nat, order: seq<nat>, h: nat)
    requires Hole(q, h)
    ensures !q.Prepared(now, order).Window()
  {
    var t := q.Tick(now, order);
    assert Hole(t, h);
    RenumberAllKeepsHole(t, t.resend, now, h);
    assert Hole(q.Prepared(now, order), h);
  }

  /** Neither closing the batch nor renumbering opens a hole or fills one. */
  lemma FlushSucceedsIff(q: SendQueue, now: nat, order: seq<nat>)
    requires q.Consistent() && q.resend == [] && Enumerates(order, q.CloseBatch(now).Expired(now))
    ensures q.Prepared(now, order).Window() <==> q.Window()
  {
    if q.Window() {
      PreparedIsValid(q, now, order);
    } else {
      var h :| q.sendMin <= h < q.max && h !in q.queue;
      HoleStopsFlush(q, now, order, h);
    }
  }

  // ---- ACKs ----

  /** The range misses the numbers that wait to be emitted. */
  predicate AckIsHarmless(q: SendQueue, range: Range) {
    range.1 < range.0 || range.1 < q.sendMin || q.max <= range.0 || q.sendMin == q.max
  }

  lemma AckLeavesWindowIff(q: SendQueue, range: Range)
    requires q.Valid()
    ensures q.ReceivedAll(Numbers(range)).Consistent() && q.ReceivedAll(Numbers(range)).resend == []
    ensures q.ReceivedAll(Numbers(range)).Window() <==> AckIsHarmless(q, range)
  {
    ReceivedAllIsWithout(q, Numbers(range));
    forall k: nat
      ensures k in Elems(Numbers(range)) <==> range.0 <= k <= range.1
    {
      NumbersHas(range, k);
    }
    if !AckIsHarmless(q, range) {
      var k := if range.0 < q.sendMin then q.sendMin else range.0;
      assert k in Elems(Numbers(range)) && Hole(q.Without(Elems(Numbers(range))), k);
    }
  }

  /** After an ACK for any range, the next emission succeeds if and only if the range is
      empty or names no number that is still waiting to be emitted. */
  lemma AckIsHarmlessIff(q: SendQueue, range: Range, now: nat, order: seq<nat>)
    requires q.Valid() && Enumerates(order, q.ReceivedAll(Numbers(range)).CloseBatch(now).Expired(now))
    ensures q.ReceivedAll(Numbers(range)).Prepared(now, order).Window() <==> AckIsHarmless(q, range)
  {
    AckLeavesWindowIff(q, range);
    FlushSucceedsIff(q.ReceivedAll(Numbers(range)), now, order);
  }

  // ---- NACKs ----

  /** The range ends among the emitted numbers, or lies beyond everything queued. A range
      that begins at an outstanding number and reaches past the last one emitted meets
      that set again under its fresh number, and renumbers it a second time. */
  ghost predicate NackIsHarmless(q: SendQueue, range: Range) {
    range.1 < range.0 || range.1 < q.sendMin || forall k :: k in q.queue ==> k < range.0
  }

  lemma {:induction false} RenumberAllConsistent(q: SendQueue, ks: seq<nat>, now: nat)
    requires q.Consistent()
    ensures q.RenumberAll(ks, now).Consistent() && q.RenumberAll(ks, now).resend == q.resend
    decreases |ks|
  {
    if ks != [] {
      RenumberAllConsistent(if ks[0] in q.queue then q.Renumber(ks[0], now) else q, ks[1..], now);
    }
  }

  lemma {:induction false} RenumberAllNothing(q: SendQueue, ks: seq<nat>, now: nat)
    requires forall k :: k in ks ==> k !in q.queue
    ensures q.RenumberAll(ks, now) == q
    decreases |ks|
  {
    if ks != [] { RenumberAllNothing(q, ks[1..], now); }
  }

  /** A number in the window that is listed leaves a hole. */
  lemma {:induction false} ListedLeavesHole(q: SendQueue, ks: seq<nat>, now: nat, h: nat)
    requires h in ks && q.sendMin <= h < q.max
    ensures Hole(q.RenumberAll(ks, now), h)
    decreases |ks|
  {
    var next := if ks[0] in q.queue then q.Renumber(ks[0], now) else q;
    if ks[0] == h {
      RenumberAllKeepsHole(next, ks[1..], now, h);
    } else {
      ListedLeavesHole(next, ks[1..], now, h);
    }
  }

  lemma {:induction false} RenumberAllJoin(q: SendQueue, a: seq<nat>, b: seq<nat>, now: nat)
    ensures q.RenumberAll(a + b, now) == q.RenumberAll(a, now).RenumberAll(b, now)
    decreases |a|
  {
    if a == [] {
      assert a + b == b;
    } else {
      assert (a + b)[1..] == a[1..] + b;
      RenumberAllJoin(if a[0] in q.queue then q.Renumber(a[0], now) else q, a[1..], b, now);
    }
  }

  lemma NumbersSplit(low: nat, mid: nat, high: nat)
    requires low < mid <= high
    ensures Numbers((low, high)) == Numbers((low, mid - 1)) + Numbers((mid, high))
  {
  }

  lemma PassGoesOn(q: SendQueue, ks: seq<nat>, now: nat, k: nat)
    requires q.Valid() && k in ks && k in q.queue && forall x: nat :: x in ks ==> x < q.sendMin
    ensures q.RenumberAll(ks, now).sendMin == q.sendMin && q.max < q.RenumberAll(ks, now).max
  {
    RenumberAllEffect(q, ks, now);
    PickedIs(ks, q.queue.Keys);
    assert k in Picked(ks, q.queue.Keys);
  }

  /** With nothing waiting, a range across the end of the emitted numbers renumbers what
      it has just renumbered. */
  lemma OverlongLeavesHole(q: SendQueue, range: Range, now: nat, k: nat)
    requires q.Valid() && q.sendMin == q.max && k in q.queue && range.0 <= k && q.max <= range.1
    ensures Hole(q.RenumberAll(Numbers(range), now), q.max)
  {
    var low, high := (range.0, q.max - 1), (q.max, range.1);
    NumbersSplit(range.0, q.max, range.1);
    RenumberAllJoin(q, Numbers(low), Numbers(high), now);
    NumbersHas(low, k);
    NumbersHas(high, q.max);
    PassGoesOn(q, Numbers(low), now, k);
    ListedLeavesHole(q.RenumberAll(Numbers(low), now), Numbers(high), now, q.max);
  }

  lemma NackLeavesWindowIff(q: SendQueue, range: Range, now: nat)
    requires q.Valid()
    ensures var r := q.ResendAll(Numbers(range), now);
            r.Consistent() && r.resend == [] && (r.Window() <==> NackIsHarmless(q, range))
  {
    var ks := Numbers(range);
    ResendAllIsRenumberAll(q, ks, now);
    RenumberAllConsistent(q, ks, now);
    forall k: nat
      ensures k in ks <==> range.0 <= k <= range.1
    {
      NumbersHas(range, k);
    }
    if range.1 < range.0 || forall k :: k in q.queue ==> k < range.0 {
      RenumberAllNothing(q, ks, now);
    } else if range.1 < q.sendMin {
      RenumberAllEffect(q, ks, now);
    } else if q.sendMin == q.max {
      var k :| k in q.queue && range.0 <= k;
      OverlongLeavesHole(q, range, now, k);
    } else {
      ListedLeavesHole(q, ks, now, if range.0 < q.sendMin then q.sendMin else range.0);
    }
  }

  /** After a NACK for any range, the next emission succeeds if and only if the range is
      empty, ends among the emitted numbers, or lies beyond everything queued. */
  lemma NackIsHarmlessIff(q: SendQueue, range: Range, now: nat, later: nat, order: seq<nat>)
    requires q.Valid() && Enumerates(order, q.ResendAll(Numbers(range), now).CloseBatch(later).Expired(later))
    ensures q.ResendAll(Numbers(range), now).Prepared(later, order).Window() <==> NackIsHarmless(q, range)
  {
    NackLeavesWindowIff(q, range, now);
    FlushSucceedsIff(q.ResendAll(Numbers(range), now), later, order);
  }

  // ---- Any packet ----

  ghost predicate IsHarmless(q: SendQueue, packet: bytes)
    requires packet != []
  {
    match RouteOf(packet[0])
    case ToAck => DecodePacket(packet).Some? ==> AckIsHarmless(q, DecodePacket(packet).value.sequences)
    case ToNack => DecodePacket(packet).Some? ==> NackIsHarmless(q, DecodePacket(packet).value.sequences)
    case _ => true
  }

  /** Exactly which packets, of any bytes at all, a session can handle without stopping
      at its next emission. */
  lemma PacketIsHarmlessIff(e: Endpoint, packet: bytes, now: nat, later: nat, order: seq<nat>)
    requires e.tx.queue.Valid() && packet != []
    requires Enumerates(order, e.Handle(packet, now).tx.queue.CloseBatch(later).Expired(later))
    ensures e.Handle(packet, now).tx.queue.Prepared(later, order).Window() <==> IsHarmless(e.tx.queue, packet)
  {
    var q, d := e.tx.queue, DecodePacket(packet);
    match RouteOf(packet[0])
    case ToAck =>
      if d.Some? {
        AckIsHarmlessIff(q, d.value.sequences, later, order);
      } else {
        FlushSucceedsIff(q, later, order);
      }
    case ToNack =>
      if d.Some? {
        NackIsHarmlessIff(q, d.value.sequences, now, later, order);
      } else {
        FlushSucceedsIff(q, later, order);
      }
    case _ => FlushSucceedsIff(q, later, order);
  }

  /** An ACK for the number 0. */
  const ACK_OF_ZERO: bytes := [0xc0, 0, 1, 1, 0, 0, 0]

  /** A NACK for the numbers 0 and 1. */
  const NACK_OF_ZERO_AND_ONE: bytes := [0xa0, 0, 1, 0, 0, 0, 0, 1, 0, 0]

  lemma AckNamesZero()
    ensures RouteOf(ACK_OF_ZERO[0]) == ToAck && DecodePacket(ACK_OF_ZERO) == Some(NewRecord((0, 0)))
  {
    assert U16Big(1) == [0, 1] && U24Little(0) == [0, 0, 0];
    assert EncodeRecord(NewRecord((0, 0))) == [0, 1, 1, 0, 0, 0];
    assert EncodePacket(ACK_ID, NewRecord((0, 0))) == ACK_OF_ZERO;
    PacketReadsBack(ACK_ID, (0, 0));
  }

  lemma NackNamesZeroAndOne()
    ensures RouteOf(NACK_OF_ZERO_AND_ONE[0]) == ToNack && DecodePacket(NACK_OF_ZERO_AND_ONE) == Some(NewRecord((0, 1)))
  {
    assert U16Big(1) == [0, 1] && U24Little(0) == [0, 0, 0] && U24Little(1) == [1, 0, 0];
    assert EncodeRecord(NewRecord((0, 1))) == [0, 1, 0, 0, 0, 0, 1, 0, 0];
    assert EncodePacket(NACK_ID, NewRecord((0, 1))) == NACK_OF_ZERO_AND_ONE;
    PacketReadsBack(NACK_ID, (0, 1));
  }

  lemma OneFragment(f: Frame)
    requires f.split
    ensures var q := EmptyQueue(1400).AddFrame(f, 0);
            q.Valid() && q.Emitted().Valid() && 0 in q.queue && q.sendMin == 0 && q.max == 1
  {
    AddFrameKeeps(EmptyQueue(1400), f, 0);
    EmittedIsValid(EmptyQueue(1400).AddFrame(f, 0));
  }

  /** Such packets exist. While the set numbered 0 waits to be emitted, an ACK for it makes
      the next emission stop. */
  lemma EarlyAckStopsFlush(e: Endpoint, f: Frame, now: nat, later: nat, order: seq<nat>)
    requires f.split && e.tx.queue == EmptyQueue(1400).AddFrame(f, 0)
    requires Enumerates(order, e.Handle(ACK_OF_ZERO, now).tx.queue.CloseBatch(later).Expired(later))
    ensures !e.Handle(ACK_OF_ZERO, now).tx.queue.Prepared(later, order).Window()
  {
    AckNamesZero();
    OneFragment(f);
    PacketIsHarmlessIff(e, ACK_OF_ZERO, now, later, order);
  }

  /** Once it has been emitted, a NACK for 0 and 1 does. */
  lemma OverlongNackStopsFlush(e: Endpoint, f: Frame, now: nat, later: nat, order: seq<nat>)
    requires f.split && e.tx.queue == EmptyQueue(1400).AddFrame(f, 0).Emitted()
    requires Enumerates(order, e.Handle(NACK_OF_ZERO_AND_ONE, now).tx.queue.CloseBatch(later).Expired(later))
    ensures !e.Handle(NACK_OF_ZERO_AND_ONE, now).tx.queue.Prepared(later, order).Window()
  {
    NackNamesZeroAndOne();
    OneFragment(f);
    PacketIsHarmlessIff(e, NACK_OF_ZERO_AND_ONE, now, later, order);
  }
}

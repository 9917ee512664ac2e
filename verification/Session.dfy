/** A session as the program keeps it: its queues, its counters, and what it has passed to
    the UDP socket and to its owner. */
module LiveSessions {
  import opened Frames
  import opened SendQueues
  import opened PacketQueues
  import opened AckQueues
  import opened ReceivedQueues
  import opened Sessions
  import opened FrameCodec
  import opened FrameIO
  import opened AckCodec
  import opened Endpoints

  const DISCONNECTED_ID: byte := 0x15

  /** Everything due for emission must still be there, and its numbers must fit 24 bits. */
  ghost predicate CanEmit(q: SendQueue, now: nat, order: seq<nat>) {
    Enumerates(order, q.CloseBatch(now).Expired(now)) ==>
      q.Prepared(now, order).Valid() && AllEncodable(q.Prepared(now, order).Emission())
  }

  ghost predicate Flushable(q: SendQueue, now: nat) {
    q.Valid() && forall order: seq<nat> :: CanEmit(q, now, order)
  }

  /** What a flush makes of queue `q`, walked in `order`, and of the datagrams sent. */
  ghost predicate Flushed(q: SendQueue, now: nat, order: seq<nat>, q': SendQueue,
                          before: seq<bytes>, after: seq<bytes>) {
    var p := q.Prepared(now, order);
    && Enumerates(order, q.CloseBatch(now).Expired(now))
    && p.Valid() && AllEncodable(p.Emission())
    && q' == p.Emitted() && after == before + Datagrams(p.Emission())
  }

  class Session {
    const ackQueue: ACKQueue
    const packetQueue: PacketQueue
    const received: ReceivedQueue
    const mtu: nat
    var messageIndex: nat
    var orderIndex: nat
    var splitId: nat
    var disconnected: bool
    var outbox: seq<bytes>   // the datagrams passed to the socket
    var handed: seq<Frame>   // the frames passed on for handling

    /** The sending half. */
    function Tx(): Sender
      reads this, packetQueue
    {
      Sender(packetQueue.Model(), messageIndex, orderIndex, splitId)
    }

    /** The receiving half. */
    function Rx(): Receiver
      reads ackQueue, received, received.splits
    {
      Receiver(ackQueue.Model(), received.Model())
    }

    function Model(): Endpoint
      reads this, ackQueue, packetQueue, received, received.splits
    {
      Endpoint(Tx(), Rx())
    }

    ghost predicate CanSend()
      reads packetQueue
    {
      && mtu >= MIN_MTU && packetQueue.mtu == mtu
      && packetQueue.Model().Consistent() && packetQueue.Model().resend == []
    }

    ghost predicate CanReceive()
      reads ackQueue, received.splits
    {
      ackQueue.Model().Valid() && received.splits.Model().Tidy()
    }

    ghost predicate Valid()
      reads packetQueue, ackQueue, received.splits
    {
      CanSend() && CanReceive()
    }

    /** An MTU below the minimum is accepted; sending under it would stop the program. */
    constructor (mtu: nat)
      ensures (mtu >= MIN_MTU ==> Valid()) && this.mtu == mtu && Model() == NewEndpoint(mtu)
      ensures outbox == [] && handed == [] && !disconnected
      ensures fresh(ackQueue) && fresh(packetQueue) && fresh(received) && fresh(received.splits)
    {
      ackQueue := new ACKQueue();
      packetQueue := new PacketQueue(mtu);
      received := new ReceivedQueue();
      this.mtu := mtu;
      messageIndex, orderIndex, splitId := 0, 0, 0;
      disconnected := false;
      outbox, handed := [], [];
    }

    method Send(packet: Frame, now: nat)
      requires Valid()
      modifies packetQueue
      ensures Valid() && packetQueue.Model() == old(packetQueue.Model()).AddFrame(packet, now)
    {
      AddFrameConsistent(packetQueue.Model(), packet, now);
      packetQueue.AddFrame(packet, now);
    }

    /** The 16-bit split id must not overflow. */
    method SendTo(payload: bytes, now: nat)
      requires Valid() && (FitsOneFrame(|payload|, mtu) || splitId + 1 < 0x1_0000)
      modifies this`messageIndex, this`orderIndex, this`splitId, packetQueue
      ensures Valid() && Tx() == old(Tx()).SendTo(payload, now)
    {
      if |payload| < mtu - 14 - 32 {
        SendWhole(payload, now);
      } else {
        SendSplit(payload, now);
      }
    }

    method SendWhole(payload: bytes, now: nat)
      requires Valid() && FitsOneFrame(|payload|, mtu)
      modifies this`messageIndex, this`orderIndex, packetQueue
      ensures Valid() && Tx() == old(Tx()).SendTo(payload, now)
    {
      ghost var tx := Tx();
      var frame := NewFrame(ReliableOrdered, payload).(messageIndex := messageIndex, orderIndex := orderIndex);
      messageIndex := messageIndex + 1;
      orderIndex := orderIndex + 1;
      SendToWhole(tx, payload, now);
      Send(frame, now);
    }

    method SendSplit(payload: bytes, now: nat)
      requires Valid() && !FitsOneFrame(|payload|, mtu)
      modifies this`messageIndex, this`orderIndex, this`splitId, packetQueue
      ensures Valid() && Tx() == old(Tx()).SendTo(payload, now)
    {
      SendToSplit(Tx(), payload, now);
      SendFragments(payload, now);
      splitId := splitId + 1;
      orderIndex := orderIndex + 1;
    }

    /** The payload is consumed fragment by fragment. */
    method SendFragments(payload: bytes, now: nat)
      requires Valid()
      modifies this`messageIndex, packetQueue
      ensures Valid()
      ensures var tx := old(Tx());
              var n := FragmentCount(Cast16(|payload|), FragmentMax(mtu));
              && packetQueue.Model() == tx.queue.AddAll(tx.Fragments(payload, n), now)
              && messageIndex == tx.messageIndex + n
    {
      ghost var tx := Tx();
      var buff := payload;
      var len := |buff| % 0x1_0000;
      var max := mtu - 24 - 32 - 5;
      var splitLen := |buff| % 0x1_0000 / max;
      if len % max != 0 {
        splitLen := splitLen + 1;
      }
      for i := 0 to splitLen
        invariant Valid() && SentSoFar(tx, payload, i, splitLen, len, max, buff, now)
      {
        buff := SendNext(tx, payload, i, splitLen, len, max, buff, now);
      }
    }

    /** The first `i` fragments have been sent; `buff` is what is left of the payload. */
    ghost predicate SentSoFar(tx: Sender, payload: bytes, i: nat, splitLen: nat, len: nat, max: nat,
                              buff: bytes, now: nat)
      reads this, packetQueue
    {
      && tx.queue.mtu >= MIN_MTU && max == FragmentMax(tx.queue.mtu) && len == Cast16(|payload|)
      && splitLen == FragmentCount(len, max) && i <= splitLen
      && messageIndex == tx.messageIndex + i && orderIndex == tx.orderIndex && splitId == tx.splitId
      && packetQueue.Model() == tx.queue.AddAll(tx.Fragments(payload, i), now)
      && Left(payload, i, splitLen, len, max, buff)
    }

    method SendNext(ghost tx: Sender, ghost payload: bytes, i: nat, splitLen: nat, len: nat, max: nat,
                    buff: bytes, now: nat)
      returns (rest: bytes)
      requires Valid() && i < splitLen && SentSoFar(tx, payload, i, splitLen, len, max, buff, now)
      modifies this`messageIndex, packetQueue
      ensures Valid() && SentSoFar(tx, payload, i + 1, splitLen, len, max, rest, now)
    {
      var pos;
      if i == splitLen - 1 {
        pos := len % max;
      } else {
        pos := max;
      }
      FragmentSent(tx, payload, i, buff, pos, now);
      SendFragment(tx, buff[..pos], splitLen, i, now);
      rest := buff[pos..];
    }

    method SendFragment(ghost tx: Sender, data: bytes, splitLen: nat, i: nat, now: nat)
      requires Valid() && messageIndex == tx.messageIndex + i && orderIndex == tx.orderIndex && splitId == tx.splitId
      modifies this`messageIndex, packetQueue
      ensures Valid() && messageIndex == tx.messageIndex + i + 1
      ensures packetQueue.Model() == old(packetQueue.Model()).AddFrame(tx.Fragment(i, splitLen, data), now)
    {
      var frame := NewFrame(ReliableOrdered, data);
      frame := frame.(split := true, messageIndex := messageIndex, orderIndex := orderIndex,
                      splitCount := splitLen, splitId := splitId, splitIndex := i);
      Send(frame, now);
      messageIndex := messageIndex + 1;
    }

    method SendSystemPacket(buff: bytes, reliability: Reliability, now: nat)
      requires Valid()
      modifies this`messageIndex, this`orderIndex, packetQueue
      ensures Valid() && Tx() == old(Tx()).SendSystemPacket(buff, reliability, now)
    {
      var packet := NewFrame(reliability, buff);
      if reliability.IsReliable() {
        packet := packet.(messageIndex := messageIndex);
        messageIndex := messageIndex + 1;
      }
      if reliability.IsSequencedOrOrdered() {
        packet := packet.(orderIndex := orderIndex);
        orderIndex := orderIndex + 1;
      }
      Send(packet, now);
    }

    /** `q` is the queue before the call. */
    method FlushQueue(now: nat, ghost q: SendQueue) returns (ghost order: seq<nat>)
      requires Valid() && q == packetQueue.Model() && Flushable(q, now)
      modifies this`outbox, packetQueue
      ensures Valid() && Flushed(q, now, order, packetQueue.Model(), old(outbox), outbox)
    {
      var sets;
      sets, order := packetQueue.GetPacket(now);
      assert CanEmit(q, now, order);
      EmittedIsValid(q.Prepared(now, order));
      Transmit(sets);
    }

    method Transmit(sets: seq<FrameSet>)
      requires AllEncodable(sets)
      modifies this`outbox
      ensures outbox == old(outbox) + Datagrams(sets)
    {
      for i := 0 to |sets|
        invariant outbox == old(outbox) + Datagrams(sets[..i])
      {
        var frameSet := EncodeSet(sets[i]);
        DatagramsNext(sets, i);
        outbox := outbox + [frameSet];
      }
      assert sets[..|sets|] == sets;
    }

    /** The numbers reported must fit 24 bits. */
    method FlushAck()
      requires Valid() && RangesFit(ackQueue.Model().Acks()) && RangesFit(Singles(ackQueue.Model().Nacks()))
      modifies this`outbox, ackQueue
      ensures Valid() && ackQueue.Model() == old(ackQueue.Model()).Cleared()
      ensures outbox == old(outbox) + Packets(ACK_ID, old(ackQueue.Model()).Acks())
                                    + Packets(NACK_ID, Singles(old(ackQueue.Model()).Nacks()))
    {
      var acks, nacks := ackQueue.Clear();
      SendAcks(acks);
      SendNacks(nacks);
    }

    method SendAcks(acks: seq<Range>)
      requires RangesFit(acks)
      modifies this`outbox
      ensures outbox == old(outbox) + Packets(ACK_ID, acks)
    {
      for i := 0 to |acks|
        invariant outbox == old(outbox) + Packets(ACK_ID, acks[..i])
      {
        var buff := Packet(ACK_ID, acks[i]);
        PacketsNext(ACK_ID, acks, i);
        outbox := outbox + [buff];
      }
      assert acks[..|acks|] == acks;
    }

    method SendNacks(missing: seq<nat>)
      requires RangesFit(Singles(missing))
      modifies this`outbox
      ensures outbox == old(outbox) + Packets(NACK_ID, Singles(missing))
    {
      ghost var singles := Singles(missing);
      SinglesAre(missing);
      for i := 0 to |missing|
        invariant outbox == old(outbox) + Packets(NACK_ID, singles[..i])
      {
        var buff := Packet(NACK_ID, (missing[i], missing[i]));
        PacketsNext(NACK_ID, singles, i);
        outbox := outbox + [buff];
      }
      assert singles[..|missing|] == singles;
    }

    method HandleAck(buff: bytes)
      requires Valid() && buff != []
      modifies packetQueue
      ensures Valid()
      ensures packetQueue.Model() == match DecodePacket(buff)
                case None => old(packetQueue.Model())
                case Some(r) => old(packetQueue.Model()).ReceivedAll(r.GetAll())
    {
      var ack := ReadRecord(buff[1..]);
      if ack.None? { return; }
      var sequences := ack.value.GetAll();
      for i := 0 to |sequences|
        invariant Valid()
        invariant packetQueue.Model().ReceivedAll(sequences[i..]) == old(packetQueue.Model()).ReceivedAll(sequences)
      {
        FeedbackConsistent(packetQueue.Model(), sequences[i], 0);
        assert sequences[i..][1..] == sequences[i + 1..];
        packetQueue.Received(sequences[i]);
      }
      assert sequences[|sequences|..] == [];
    }

    method HandleNack(buff: bytes, now: nat)
      requires Valid() && buff != []
      modifies packetQueue
      ensures Valid()
      ensures packetQueue.Model() == match DecodePacket(buff)
                case None => old(packetQueue.Model())
                case Some(r) => old(packetQueue.Model()).ResendAll(r.GetAll(), now)
    {
      var nack := ReadRecord(buff[1..]);
      if nack.None? { return; }
      var sequences := nack.value.GetAll();
      for i := 0 to |sequences|
        invariant Valid()
        invariant packetQueue.Model().ResendAll(sequences[i..], now) ==
          old(packetQueue.Model()).ResendAll(sequences, now)
      {
        FeedbackConsistent(packetQueue.Model(), sequences[i], now);
        assert sequences[i..][1..] == sequences[i + 1..];
        packetQueue.Resend(sequences[i], now);
      }
      assert sequences[|sequences|..] == [];
    }

    method ReceivePacket(frame: Frame)
      requires Valid()
      modifies this`handed, received, received.splits
      ensures Valid() && Rx() == old(Rx()).ReceivePacket(frame)
      ensures handed == old(handed) + old(Rx()).Handed(frame)
    {
      if !frame.reliability.IsSequencedOrOrdered() {
        handed := handed + [frame];
      } else {
        received.Add(frame);
        var due := received.GetAll();
        handed := handed + due;
      }
    }

    method HandleDatagram(buff: bytes)
      requires Valid() && buff != []
      modifies this`handed, ackQueue, received, received.splits
      ensures Valid()
      ensures match DecodeFrameSet(buff)
              case None => Rx() == old(Rx()) && handed == old(handed)
              case Some(s) =>
                Rx() == old(Rx()).HandleDatagram(s) && handed == old(handed) + old(Rx()).HandedAll(s.datas)
    {
      var frameSet := DecodeSet(buff);
      if frameSet.None? { return; }
      ghost var rx := Rx();
      var frames := frameSet.value.datas;
      ackQueue.Add(frameSet.value.sequenceNumber);
      ReceiveAll(frames);
      AcksDoNotMatter(rx, rx.acks.Add(frameSet.value.sequenceNumber), frames);
    }

    method ReceiveAll(frames: seq<Frame>)
      requires Valid()
      modifies this`handed, received, received.splits
      ensures Valid() && Rx() == old(Rx()).ReceiveAll(frames)
      ensures handed == old(handed) + old(Rx()).HandedAll(frames)
    {
      ghost var rx := Rx();
      for i := 0 to |frames|
        invariant Valid() && Rx() == rx.ReceiveAll(frames[..i])
        invariant handed == old(handed) + rx.HandedAll(frames[..i])
      {
        ReceiveNext(rx, frames, i);
        Regrouped(old(handed), rx.HandedAll(frames[..i]), Rx().Handed(frames[i]));
        ReceivePacket(frames[i]);
      }
      assert frames[..|frames|] == frames;
    }

    /** An empty packet would stop the program. */
    method Handle(packet: bytes, now: nat)
      requires Valid() && packet != []
      modifies this`handed, ackQueue, packetQueue, received, received.splits
      ensures Valid() && Model() == old(Model()).Handle(packet, now)
      ensures handed == old(handed) + old(Model()).Handed(packet)
    {
      var header := packet[0];
      if header / ACK_FLAG % 2 != 0 {
        HandleAck(packet);
      } else if header / NACK_FLAG % 2 != 0 {
        HandleNack(packet, now);
      } else if header / DATAGRAM_FLAG % 2 != 0 {
        HandleDatagram(packet);
      }
    }

    /** The farewell is queued like any ordered packet, and flushed at once; `q` is the
        queue in between. */
    method Disconnect(now: nat, ghost q: SendQueue) returns (ghost order: seq<nat>)
      requires Valid()
      requires q == packetQueue.Model().AddFrame(Tx().WholeFrame(ReliableOrdered, [DISCONNECTED_ID]), now)
      requires Flushable(q, now)
      modifies this`messageIndex, this`orderIndex, this`outbox, this`disconnected, packetQueue
      ensures Valid() && disconnected
      ensures messageIndex == old(messageIndex) + 1 && orderIndex == old(orderIndex) + 1
      ensures Flushed(q, now, order, packetQueue.Model(), old(outbox), outbox)
    {
      order := FlushFarewell(now, q);
      disconnected := true;
    }

    method FlushFarewell(now: nat, ghost q: SendQueue) returns (ghost order: seq<nat>)
      requires Valid()
      requires q == packetQueue.Model().AddFrame(Tx().WholeFrame(ReliableOrdered, [DISCONNECTED_ID]), now)
      requires Flushable(q, now)
      modifies this`messageIndex, this`orderIndex, this`outbox, packetQueue
      ensures Valid() && messageIndex == old(messageIndex) + 1 && orderIndex == old(orderIndex) + 1
      ensures Flushed(q, now, order, packetQueue.Model(), old(outbox), outbox)
    {
      SendFarewell(now);
      order := FlushQueue(now, q);
    }

    method SendFarewell(now: nat)
      requires Valid()
      modifies this`messageIndex, this`orderIndex, packetQueue
      ensures Valid() && messageIndex == old(messageIndex) + 1 && orderIndex == old(orderIndex) + 1
      ensures packetQueue.Model() ==
        old(packetQueue.Model()).AddFrame(old(Tx()).WholeFrame(ReliableOrdered, [DISCONNECTED_ID]), now)
    {
      var frame := NewFrame(ReliableOrdered, [DISCONNECTED_ID]);
      frame := frame.(messageIndex := messageIndex, orderIndex := orderIndex);
      assert frame == Tx().WholeFrame(ReliableOrdered, [DISCONNECTED_ID]);
      messageIndex := messageIndex + 1;
      orderIndex := orderIndex + 1;
      Send(frame, now);
    }
  }

  /** The farewell is one ordered frame with the single byte 0x15. */
  lemma FarewellIs(s: Sender)
    ensures s.WholeFrame(ReliableOrdered, [DISCONNECTED_ID]) ==
      Frame(ReliableOrdered, s.messageIndex, 0, s.orderIndex, false, 0, 0, 0, [0x15])
  {
  }

  lemma ReceiveNext(rx: Receiver, frames: seq<Frame>, i: nat)
    requires i < |frames|
    ensures rx.ReceiveAll(frames[..i + 1]) == rx.ReceiveAll(frames[..i]).ReceivePacket(frames[i])
    ensures rx.HandedAll(frames[..i + 1]) == rx.HandedAll(frames[..i]) + rx.ReceiveAll(frames[..i]).Handed(frames[i])
  {
    assert frames[..i + 1][..i] == frames[..i];
  }

  /** Feedback for any number at all keeps the queue consistent; only the window of numbers
      due for emission depends on the peer's honesty. */
  lemma FeedbackConsistent(q: SendQueue, s: nat, now: nat)
    requires q.Consistent()
    ensures q.Received(s).Consistent() && q.Received(s).resend == q.resend
    ensures q.Resend(s, now).Consistent() && q.Resend(s, now).resend == q.resend
  {
  }

  lemma AddAllSnoc(q: SendQueue, frames: seq<Frame>, f: Frame, now: nat)
    ensures q.AddAll(frames + [f], now) == q.AddAll(frames, now).AddFrame(f, now)
  {
    assert (frames + [f])[..|frames|] == frames;
  }

  lemma SendToWhole(s: Sender, payload: bytes, now: nat)
    requires s.queue.mtu >= MIN_MTU && FitsOneFrame(|payload|, s.queue.mtu)
    ensures s.SendTo(payload, now) ==
      Sender(s.queue.AddFrame(s.WholeFrame(ReliableOrdered, payload), now),
             s.messageIndex + 1, s.orderIndex + 1, s.splitId)
  {
    AddAllSnoc(s.queue, [], s.WholeFrame(ReliableOrdered, payload), now);
    assert [] + s.MessageFor(payload) == s.MessageFor(payload);
  }

  lemma SendToSplit(s: Sender, payload: bytes, now: nat)
    requires s.queue.mtu >= MIN_MTU && !FitsOneFrame(|payload|, s.queue.mtu)
    ensures var n := FragmentCount(Cast16(|payload|), FragmentMax(s.queue.mtu));
            s.SendTo(payload, now) ==
              Sender(s.queue.AddAll(s.Fragments(payload, n), now), s.messageIndex + n, s.orderIndex + 1, s.splitId + 1)
  {
  }

  /** What is left of a payload after its first `i` fragments. */
  ghost predicate Left(payload: bytes, i: nat, count: nat, len: nat, max: nat, rest: bytes)
    requires max > 0
  {
    FragmentsEnd(i, count, len, max) <= |payload| && rest == payload[FragmentsEnd(i, count, len, max)..]
  }

  lemma SliceAfter(payload: bytes, start: nat, size: nat, rest: bytes)
    requires start + size <= |payload| && rest == payload[start..]
    ensures size <= |rest| && rest[..size] == payload[start..start + size] && rest[size..] == payload[start + size..]
  {
  }

  /** The loop of `SendTo` takes the next fragment off what is left of the payload. */
  lemma NextFragment(s: Sender, payload: bytes, i: nat, rest: bytes)
    requires s.queue.mtu >= MIN_MTU
    requires var len, max := Cast16(|payload|), FragmentMax(s.queue.mtu);
             i < FragmentCount(len, max) && Left(payload, i, FragmentCount(len, max), len, max, rest)
    ensures var len, max := Cast16(|payload|), FragmentMax(s.queue.mtu);
            var count := FragmentCount(len, max);
            var pos := FragmentSize(i, count, len, max);
            && pos <= |rest| && Left(payload, i + 1, count, len, max, rest[pos..])
            && s.Fragments(payload, i + 1) == s.Fragments(payload, i) + [s.Fragment(i, count, rest[..pos])]
  {
    var len, max := Cast16(|payload|), FragmentMax(s.queue.mtu);
    var count := FragmentCount(len, max);
    FragmentsFit(|payload|, max, i);
    FragmentsAdjoin(i + 1, count, len, max);
    SliceAfter(payload, i * max, FragmentSize(i, count, len, max), rest);
  }

  /** Sending that fragment continues the list of fragments sent. */
  lemma FragmentSent(s: Sender, payload: bytes, i: nat, rest: bytes, pos: nat, now: nat)
    requires s.queue.mtu >= MIN_MTU
    requires var len, max := Cast16(|payload|), FragmentMax(s.queue.mtu);
             && i < FragmentCount(len, max) && Left(payload, i, FragmentCount(len, max), len, max, rest)
             && pos == FragmentSize(i, FragmentCount(len, max), len, max)
    ensures var len, max := Cast16(|payload|), FragmentMax(s.queue.mtu);
            var count := FragmentCount(len, max);
            && pos <= |rest| && Left(payload, i + 1, count, len, max, rest[pos..])
            && s.queue.AddAll(s.Fragments(payload, i + 1), now)
               == s.queue.AddAll(s.Fragments(payload, i), now).AddFrame(s.Fragment(i, count, rest[..pos]), now)
  {
    var count := FragmentCount(Cast16(|payload|), FragmentMax(s.queue.mtu));
    NextFragment(s, payload, i, rest);
    AddAllSnoc(s.queue, s.Fragments(payload, i), s.Fragment(i, count, rest[..pos]), now);
  }
}

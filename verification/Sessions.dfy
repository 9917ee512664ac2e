/** The two halves of a session: what it does to send, and what it does on receipt. */
module Sessions {
  import opened Frames
  import opened SendQueues
  import opened AckQueues
  import opened ReceiveQueues
  import opened OrderedDelivery

  /** Below this MTU the 16-bit subtractions of the sending code underflow, or it divides
      by zero. */
  const MIN_MTU: nat := 62

  /** A cast to 16 unsigned bits. */
  function Cast16(n: nat): nat {
    n % 0x1_0000
  }

  /** The most payload bytes a fragment carries. */
  function FragmentMax(mtu: nat): nat
    requires mtu >= MIN_MTU
  {
    mtu - 24 - 32 - 5
  }

  /** The number of fragments, for a payload length already cut to 16 bits. */
  function FragmentCount(len: nat, max: nat): nat
    requires max > 0
  {
    len / max + if len % max != 0 then 1 else 0
  }

  /** The bytes that fragment `i` takes off the front of what is left of the payload. */
  function FragmentSize(i: nat, count: nat, len: nat, max: nat): nat
    requires max > 0
  {
    if i == count - 1 then len % max else max
  }

  predicate FitsOneFrame(size: nat, mtu: nat) {
    size < mtu - 14 - 32
  }

  /** The sending half of a session. */
  datatype Sender = Sender(queue: SendQueue, messageIndex: nat, orderIndex: nat, splitId: nat) {
    function WholeFrame(reliability: Reliability, buff: bytes): Frame {
      NewFrame(reliability, buff).(
        messageIndex := if reliability.IsReliable() then messageIndex else 0,
        orderIndex := if reliability.IsSequencedOrOrdered() then orderIndex else 0)
    }

    function Fragment(i: nat, count: nat, data: bytes): Frame {
      NewFrame(ReliableOrdered, data).(
        split := true,
        messageIndex := messageIndex + i,
        orderIndex := orderIndex,
        splitCount := count,
        splitId := splitId,
        splitIndex := i)
    }

    /** The first `n` fragments of a payload. */
    function Fragments(buff: bytes, n: nat): (m: Message)
      requires queue.mtu >= MIN_MTU
      requires n <= FragmentCount(Cast16(|buff|), FragmentMax(queue.mtu))
      ensures |m| == n
    {
      var len, max := Cast16(|buff|), FragmentMax(queue.mtu);
      var count := FragmentCount(len, max);
      if n == 0 then [] else
        FragmentsFit(|buff|, max, n - 1);
        var start := (n - 1) * max;
        Fragments(buff, n - 1) + [Fragment(n - 1, count, buff[start..start + FragmentSize(n - 1, count, len, max)])]
    }

    /** The frames that carry a payload. */
    function MessageFor(buff: bytes): Message
      requires queue.mtu >= MIN_MTU
    {
      if FitsOneFrame(|buff|, queue.mtu) then [WholeFrame(ReliableOrdered, buff)]
      else Fragments(buff, FragmentCount(Cast16(|buff|), FragmentMax(queue.mtu)))
    }

    function SendTo(buff: bytes, now: nat): Sender
      requires queue.mtu >= MIN_MTU
    {
      var m := MessageFor(buff);
      Sender(queue.AddAll(m, now), messageIndex + |m|, orderIndex + 1,
             if FitsOneFrame(|buff|, queue.mtu) then splitId else splitId + 1)
    }

    /** A packet of the protocol itself, already encoded. Pings and pongs go out
        `Unreliable`, the farewell `ReliableOrdered`. */
    function SendSystemPacket(buff: bytes, reliability: Reliability, now: nat): Sender {
      this.(queue := queue.AddFrame(WholeFrame(reliability, buff), now),
            messageIndex := messageIndex + if reliability.IsReliable() then 1 else 0,
            orderIndex := orderIndex + if reliability.IsSequencedOrOrdered() then 1 else 0)
    }
  }

  /** The receiving half of a session. */
  datatype Receiver = Receiver(acks: AckState, received: RecvState) {
    function ReceivePacket(f: Frame): Receiver {
      if f.reliability.IsSequencedOrOrdered() then this.(received := received.Add(f).Released()) else this
    }

    /** The frames that `ReceivePacket` hands on. */
    function Handed(f: Frame): seq<Frame> {
      if f.reliability.IsSequencedOrOrdered() then received.Add(f).Due() else [f]
    }

    function ReceiveAll(frames: seq<Frame>): Receiver {
      if frames == [] then this else ReceiveAll(frames[..|frames| - 1]).ReceivePacket(frames[|frames| - 1])
    }

    function HandedAll(frames: seq<Frame>): seq<Frame> {
      if frames == [] then []
      else HandedAll(frames[..|frames| - 1]) + ReceiveAll(frames[..|frames| - 1]).Handed(frames[|frames| - 1])
    }

    /** The part of what is handed on that comes from the receiving queue. */
    function Ordered(f: Frame): seq<Frame> {
      if f.reliability.IsSequencedOrOrdered() then Handed(f) else []
    }

    function OrderedAll(frames: seq<Frame>): seq<Frame> {
      if frames == [] then []
      else OrderedAll(frames[..|frames| - 1]) + ReceiveAll(frames[..|frames| - 1]).Ordered(frames[|frames| - 1])
    }

    function HandleDatagram(frameSet: FrameSet): Receiver {
      this.(acks := acks.Add(frameSet.sequenceNumber)).ReceiveAll(frameSet.datas)
    }
  }

  const EmptyHalf := Receiver(EmptyAcks, EmptyReceiver)

  /** What has been stored for reports makes no difference to what is done with frames. */
  lemma {:induction false} AcksDoNotMatter(rx: Receiver, acks: AckState, frames: seq<Frame>)
    ensures rx.(acks := acks).ReceiveAll(frames) == rx.ReceiveAll(frames).(acks := acks)
    ensures rx.(acks := acks).HandedAll(frames) == rx.HandedAll(frames)
    ensures rx.(acks := acks).OrderedAll(frames) == rx.OrderedAll(frames)
  {
    if frames != [] { AcksDoNotMatter(rx, acks, frames[..|frames| - 1]); }
  }

  /** No fragment reaches past the end of the payload. */
  lemma FragmentsFit(size: nat, max: nat, i: nat)
    requires max > 0 && i < FragmentCount(Cast16(size), max)
    ensures i * max + FragmentSize(i, FragmentCount(Cast16(size), max), Cast16(size), max) <= Cast16(size) <= size
  {
    var len := Cast16(size);
    var q := len / max;
    assert len == q * max + len % max;
    if i < FragmentCount(len, max) - 1 {
      assert (i + 1) * max <= q * max by { MulMono(i + 1, q, max); }
    } else if len % max != 0 {
      assert i == q;
    } else {
      MulMono(i, q, max);
    }
  }

  lemma MulMono(a: nat, b: nat, m: nat)
    requires a <= b
    ensures a * m <= b * m
  {
  }

  /** How many bytes of a payload its frames carry. */
  function Surviving(size: nat, mtu: nat): nat
    requires mtu >= MIN_MTU
  {
    if FitsOneFrame(size, mtu) then size
    else
      var len, max := Cast16(size), FragmentMax(mtu);
      if FragmentCount(len, max) == 0 then 0 else (FragmentCount(len, max) - 1) * max + len % max
  }

  lemma {:induction false} FragmentsAre(s: Sender, buff: bytes, n: nat)
    requires s.queue.mtu >= MIN_MTU
    requires n <= FragmentCount(Cast16(|buff|), FragmentMax(s.queue.mtu))
    ensures forall i :: 0 <= i < n ==>
      s.Fragments(buff, n)[i] ==
        s.Fragment(i, FragmentCount(Cast16(|buff|), FragmentMax(s.queue.mtu)), s.Fragments(buff, n)[i].data)
  {
    if n > 0 { FragmentsAre(s, buff, n - 1); }
  }

  /** The end of the bytes that the first `n` fragments take. */
  function FragmentsEnd(n: nat, count: nat, len: nat, max: nat): nat
    requires max > 0
  {
    if n == 0 then 0 else (n - 1) * max + FragmentSize(n - 1, count, len, max)
  }

  /** Fragments lie end to end. */
  lemma FragmentsAdjoin(n: nat, count: nat, len: nat, max: nat)
    requires max > 0 && 0 < n <= count
    ensures FragmentsEnd(n - 1, count, len, max) == (n - 1) * max
  {
    if n > 1 { assert (n - 2) * max + max == (n - 1) * max; }
  }

  lemma {:induction false} FragmentsCarry(s: Sender, buff: bytes, n: nat)
    requires s.queue.mtu >= MIN_MTU
    requires n <= FragmentCount(Cast16(|buff|), FragmentMax(s.queue.mtu))
    ensures var len, max := Cast16(|buff|), FragmentMax(s.queue.mtu);
            var end := FragmentsEnd(n, FragmentCount(len, max), len, max);
            end <= |buff| && Payload(s.Fragments(buff, n)) == buff[..end]
  {
    if n > 0 {
      var len, max := Cast16(|buff|), FragmentMax(s.queue.mtu);
      var count := FragmentCount(len, max);
      FragmentsCarry(s, buff, n - 1);
      FragmentsFit(|buff|, max, n - 1);
      FragmentsAdjoin(n, count, len, max);
      var start, end := FragmentsEnd(n - 1, count, len, max), FragmentsEnd(n, count, len, max);
      LastFragmentCarries(s, buff, n);
      PrefixGrows(buff, start, end);
    }
  }

  lemma PrefixGrows(buff: bytes, start: nat, end: nat)
    requires start <= end <= |buff|
    ensures buff[..start] + buff[start..end] == buff[..end]
  {
  }

  lemma LastFragmentCarries(s: Sender, buff: bytes, n: nat)
    requires s.queue.mtu >= MIN_MTU
    requires 0 < n <= FragmentCount(Cast16(|buff|), FragmentMax(s.queue.mtu))
    ensures var len, max := Cast16(|buff|), FragmentMax(s.queue.mtu);
            var end := FragmentsEnd(n, FragmentCount(len, max), len, max);
            && (n - 1) * max <= end <= |buff|
            && Payload(s.Fragments(buff, n)) == Payload(s.Fragments(buff, n - 1)) + buff[(n - 1) * max..end]
  {
    FragmentsFit(|buff|, FragmentMax(s.queue.mtu), n - 1);
    assert s.Fragments(buff, n)[..n - 1] == s.Fragments(buff, n - 1);
  }

  /** What `SendTo` queues carries the first bytes of the payload, `Surviving` many. */
  lemma MessageForCarries(s: Sender, buff: bytes)
    requires s.queue.mtu >= MIN_MTU
    ensures Surviving(|buff|, s.queue.mtu) <= |buff|
    ensures Payload(s.MessageFor(buff)) == buff[..Surviving(|buff|, s.queue.mtu)]
  {
    var m := s.MessageFor(buff);
    if FitsOneFrame(|buff|, s.queue.mtu) {
      assert Payload(m) == Payload(m[..0]) + buff;
    } else {
      FragmentsCarry(s, buff, |m|);
    }
  }

  /** What `SendTo` queues is a message as the receiver expects it. */
  lemma MessageForIsWellFormed(s: Sender, buff: bytes)
    requires s.queue.mtu >= MIN_MTU
    ensures WellFormed(s.MessageFor(buff), s.orderIndex)
    ensures IsFragmented(s.MessageFor(buff)) ==>
      !FitsOneFrame(|buff|, s.queue.mtu) && s.MessageFor(buff)[0].splitId == s.splitId
  {
    if !FitsOneFrame(|buff|, s.queue.mtu) {
      FragmentsAre(s, buff, |s.MessageFor(buff)|);
    }
  }

  lemma SurvivingAllIff(size: nat, mtu: nat)
    requires mtu >= MIN_MTU
    ensures Surviving(size, mtu) == size <==>
      FitsOneFrame(size, mtu) || (size < 0x1_0000 && size % FragmentMax(mtu) != 0)
  {
  }

  /** Exactly when the whole payload is carried: it fits one frame, or it is shorter than
      64 KiB and its length is no multiple of the fragment size. */
  lemma WholePayloadCarriedIff(s: Sender, buff: bytes)
    requires s.queue.mtu >= MIN_MTU
    ensures Payload(s.MessageFor(buff)) == buff <==>
      FitsOneFrame(|buff|, s.queue.mtu) || (|buff| < 0x1_0000 && |buff| % FragmentMax(s.queue.mtu) != 0)
  {
    MessageForCarries(s, buff);
    SurvivingAllIff(|buff|, s.queue.mtu);
    var n := Surviving(|buff|, s.queue.mtu);
    assert |buff[..n]| == n;
    if n == |buff| { assert buff[..n] == buff; }
  }

  /** Exactly which payloads are sent as a single fragment: those too long for one frame
      whose length, cut to 16 bits, fits one fragment. */
  lemma OneFragmentIff(s: Sender, buff: bytes)
    requires s.queue.mtu >= MIN_MTU
    ensures IsFragmented(s.MessageFor(buff)) && |s.MessageFor(buff)| == 1 <==>
      !FitsOneFrame(|buff|, s.queue.mtu) && 0 < Cast16(|buff|) <= FragmentMax(s.queue.mtu)
  {
    var len, max := Cast16(|buff|), FragmentMax(s.queue.mtu);
    if !FitsOneFrame(|buff|, s.queue.mtu) {
      FragmentsAre(s, buff, |s.MessageFor(buff)|);
      OnePieceIff(len, max);
    }
  }

  lemma OnePieceIff(len: nat, max: nat)
    requires max > 0
    ensures FragmentCount(len, max) == 1 <==> 0 < len <= max
  {
    if len > max { assert len / max >= 1 && (len % max == 0 ==> len / max >= 2); }
  }

  /** Such a payload exists: a 1400-byte MTU and 2678 bytes lose their second half. */
  lemma MultipleOfFragmentSizeLosesBytes(s: Sender, buff: bytes)
    requires s.queue.mtu == 1400 && |buff| == 2 * 1339
    ensures Payload(s.MessageFor(buff)) == buff[..1339]
  {
    assert Cast16(2678) == 2678 && FragmentMax(1400) == 1339 && FragmentCount(2678, 1339) == 2;
    MessageForCarries(s, buff);
  }

  lemma SystemMessage(s: Sender, reliability: Reliability, buff: bytes)
    requires reliability.IsSequencedOrOrdered()
    ensures WellFormed([s.WholeFrame(reliability, buff)], s.orderIndex)
    ensures Payload([s.WholeFrame(reliability, buff)]) == buff
  {
  }
}

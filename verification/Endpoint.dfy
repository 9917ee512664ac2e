/** A whole session as a value: both halves, and what it makes of the bytes it receives. */
module Endpoints {
  import opened Frames
  import opened SendQueues
  import opened AckQueues
  import opened Sessions
  import opened FrameCodec
  import opened AckCodec

  datatype Endpoint = Endpoint(tx: Sender, rx: Receiver) {
    /** A packet that does not decode is dropped without a trace. */
    function Handle(packet: bytes, now: nat): Endpoint
      requires packet != []
    {
      match RouteOf(packet[0])
      case ToAck =>
        (match DecodePacket(packet)
         case None => this
         case Some(r) => this.(tx := tx.(queue := tx.queue.ReceivedAll(r.GetAll()))))
      case ToNack =>
        (match DecodePacket(packet)
         case None => this
         case Some(r) => this.(tx := tx.(queue := tx.queue.ResendAll(r.GetAll(), now))))
      case ToDatagram =>
        (match DecodeFrameSet(packet)
         case None => this
         case Some(s) => this.(rx := rx.HandleDatagram(s)))
      case Dropped => this
    }

    /** The frames handed on while handling a packet. */
    function Handed(packet: bytes): seq<Frame>
      requires packet != []
    {
      if RouteOf(packet[0]) != ToDatagram then []
      else match DecodeFrameSet(packet)
        case None => []
        case Some(s) => rx.HandedAll(s.datas)
    }

    /** Those of them that come out of the receiving queue. */
    function Released(packet: bytes): seq<Frame>
      requires packet != []
    {
      if RouteOf(packet[0]) != ToDatagram then []
      else match DecodeFrameSet(packet)
        case None => []
        case Some(s) => rx.OrderedAll(s.datas)
    }

    /** The frames that the packet brings. */
    function Brings(packet: bytes): seq<Frame>
      requires packet != []
    {
      if RouteOf(packet[0]) != ToDatagram then []
      else match DecodeFrameSet(packet)
        case None => []
        case Some(s) => s.datas
    }
  }

  function NewEndpoint(mtu: nat): Endpoint {
    Endpoint(Sender(EmptyQueue(mtu), 0, 0, 0), EmptyHalf)
  }

  ghost predicate AllEncodable(sets: seq<FrameSet>) {
    forall i :: 0 <= i < |sets| ==> SetEncodable(sets[i])
  }

  /** The datagrams that carry an emission. */
  function Datagrams(sets: seq<FrameSet>): seq<bytes>
    requires AllEncodable(sets)
  {
    if sets == [] then []
    else Datagrams(sets[..|sets| - 1]) + [EncodeFrameSet(sets[|sets| - 1])]
  }

  ghost predicate RangesFit(ranges: seq<Range>) {
    forall i :: 0 <= i < |ranges| ==> ranges[i].0 < 0x100_0000 && ranges[i].1 < 0x100_0000
  }

  /** One packet for each range. */
  function Packets(id: byte, ranges: seq<Range>): seq<bytes>
    requires RangesFit(ranges)
  {
    if ranges == [] then []
    else Packets(id, ranges[..|ranges| - 1]) + [EncodePacket(id, NewRecord(ranges[|ranges| - 1]))]
  }

  /** Each missing number becomes a range of its own. */
  function Singles(missing: seq<nat>): seq<Range> {
    if missing == [] then [] else Singles(missing[..|missing| - 1]) + [(missing[|missing| - 1], missing[|missing| - 1])]
  }

  lemma DatagramsNext(sets: seq<FrameSet>, i: nat)
    requires AllEncodable(sets) && i < |sets|
    ensures Datagrams(sets[..i + 1]) == Datagrams(sets[..i]) + [EncodeFrameSet(sets[i])]
  {
    assert sets[..i + 1][..i] == sets[..i];
  }

  lemma {:induction false} DatagramsSize(sets: seq<FrameSet>)
    requires AllEncodable(sets)
    ensures |Datagrams(sets)| == |sets|
  {
    if sets != [] { DatagramsSize(sets[..|sets| - 1]); }
  }

  /** One datagram for each set, in order. */
  lemma {:induction false} DatagramIs(sets: seq<FrameSet>, i: nat)
    requires AllEncodable(sets) && i < |sets|
    ensures |Datagrams(sets)| == |sets| && Datagrams(sets)[i] == EncodeFrameSet(sets[i])
  {
    var front := sets[..|sets| - 1];
    DatagramsSize(front);
    DatagramsNext(sets, |front|);
    assert sets[..|front| + 1] == sets;
    if i < |front| { DatagramIs(front, i); }
  }

  lemma DatagramsAt(sets: seq<FrameSet>, b: bytes)
    requires AllEncodable(sets) && b in Datagrams(sets)
    ensures exists s :: s in sets && SetEncodable(s) && b == EncodeFrameSet(s)
  {
    DatagramsSize(sets);
    var i :| 0 <= i < |sets| && Datagrams(sets)[i] == b;
    DatagramIs(sets, i);
  }

  lemma PacketsNext(id: byte, ranges: seq<Range>, i: nat)
    requires RangesFit(ranges) && i < |ranges|
    ensures Packets(id, ranges[..i + 1]) == Packets(id, ranges[..i]) + [EncodePacket(id, NewRecord(ranges[i]))]
  {
    assert ranges[..i + 1][..i] == ranges[..i];
  }

  /** One packet for each range, in order. */
  lemma {:induction false} PacketsAre(id: byte, ranges: seq<Range>)
    requires RangesFit(ranges)
    ensures |Packets(id, ranges)| == |ranges|
    ensures forall i :: 0 <= i < |ranges| ==> Packets(id, ranges)[i] == EncodePacket(id, NewRecord(ranges[i]))
  {
    if ranges != [] { PacketsAre(id, ranges[..|ranges| - 1]); }
  }

  lemma PacketsAt(id: byte, ranges: seq<Range>, b: bytes)
    requires RangesFit(ranges) && b in Packets(id, ranges)
    ensures exists i :: 0 <= i < |ranges| && b == EncodePacket(id, NewRecord(ranges[i]))
  {
    PacketsAre(id, ranges);
  }

  lemma DatagramsHave(sets: seq<FrameSet>, d: FrameSet)
    requires AllEncodable(sets) && d in sets
    ensures EncodeFrameSet(d) in Datagrams(sets)
  {
    var i :| 0 <= i < |sets| && sets[i] == d;
    DatagramIs(sets, i);
  }

  lemma PacketsHave(id: byte, ranges: seq<Range>, r: Range)
    requires RangesFit(ranges) && r in ranges
    ensures r.0 < 0x100_0000 && r.1 < 0x100_0000 && EncodePacket(id, NewRecord(r)) in Packets(id, ranges)
  {
    PacketsAre(id, ranges);
  }

  lemma {:induction false} SinglesAre(missing: seq<nat>)
    ensures |Singles(missing)| == |missing|
    ensures forall i :: 0 <= i < |missing| ==> Singles(missing)[i] == (missing[i], missing[i])
  {
    if missing != [] { SinglesAre(missing[..|missing| - 1]); }
  }

  /** An ACK or a NACK that comes off the wire is applied to the numbers of its range. */
  lemma PacketHandled(e: Endpoint, id: byte, range: Range, now: nat)
    requires (id == ACK_ID || id == NACK_ID) && range.0 < 0x100_0000 && range.1 < 0x100_0000
    ensures var b := EncodePacket(id, NewRecord(range));
            && b != [] && e.Released(b) == [] && e.Brings(b) == [] && e.Handed(b) == []
            && e.Handle(b, now) == e.(tx := e.tx.(queue :=
                 if id == ACK_ID then e.tx.queue.ReceivedAll(Numbers(range))
                 else e.tx.queue.ResendAll(Numbers(range), now)))
  {
    RoutesAreRight();
    PacketReadsBack(id, range);
  }

  /** What a report sends fits the wire as long as all numbers do. */
  lemma ReportFits(acks: AckState)
    requires acks.Valid() && acks.highest <= 0x100_0000
    ensures RangesFit(acks.Acks()) && RangesFit(Singles(acks.Nacks()))
  {
    RangesAreSeparated(acks.store, acks.lowest, acks.highest);
    GapsAreSorted(acks.store, acks.lowest, acks.highest);
    SinglesAre(acks.Nacks());
    assert forall i :: 0 <= i < |acks.Nacks()| ==> acks.Nacks()[i] in acks.Nacks();
  }
}

/** Two sessions that exchange bytes. Each act of either is a step of one direction as a
    `Link`: the codec is exact enough that a network of byte strings is as good as one of
    structured values. */
module Worlds {
  import opened Frames
  import opened SendQueues
  import opened AckQueues
  import opened Sessions
  import opened Links
  import opened Guarantees
  import opened Sizes
  import opened Numbering
  import opened FrameCodec
  import opened AckCodec
  import opened Endpoints

  /** With this MTU no fragment or unfragmented payload overflows the 16-bit length field. */
  const MAX_MTU: nat := 8238

  /** One end of the connection. The fields after `end` only record what has happened. */
  datatype Side = Side(
    end: Endpoint,
    outgoing: set<bytes>,   // everything it has put on the network
    given: seq<bytes>,      // the ordered payloads it was given to send
    accepted: seq<bytes>,   // the part of each that its frames carry
    whole: bool,            // no payload had a length that is cut short
    vanished: bool,         // some payload had a length for which no frame is sent
    queued: seq<Frame>,     // every frame handed to its sending queue
    released: seq<Frame>,   // what its receiving queue has released
    arrived: seq<Frame>,    // the frames that came in, in the order in which they were handled
    handed: seq<Frame>)     // what it has handed on

  datatype World = World(left: Side, right: Side)

  datatype Act =
    | DoSendTo(buff: bytes, now: nat)
    | DoSendSystemPacket(buff: bytes, reliability: Reliability, now: nat)
    | DoFlushQueue(now: nat, order: seq<nat>)
    | DoFlushAck
    | DoReceive(packet: bytes, now: nat)

  /** What an act needs: from the world, that the packet is on the network; from the
      caller, that a protocol packet is not oversized; and that what it sends can be
      written, or the program would stop. */
  ghost predicate CanAct(me: Side, peer: Side, act: Act) {
    match act
    case DoSendTo(buff, _) => FitsOneFrame(|buff|, me.end.tx.queue.mtu) || me.end.tx.splitId + 1 < 0x1_0000
    case DoSendSystemPacket(buff, _, _) => |buff| < 0x2000
    case DoFlushQueue(now, order) =>
      var p := me.end.tx.queue.Prepared(now, order);
      && Enumerates(order, me.end.tx.queue.CloseBatch(now).Expired(now))
      && p.sendMin <= p.max && p.Window() && AllEncodable(p.Emission())
    case DoFlushAck => RangesFit(me.end.rx.acks.Acks()) && RangesFit(Singles(me.end.rx.acks.Nacks()))
    case DoReceive(packet, _) => packet in peer.outgoing && packet != []
  }

  ghost function AfterAct(me: Side, peer: Side, act: Act): Side
    requires me.end.tx.queue.mtu >= MIN_MTU && CanAct(me, peer, act)
  {
    match act
    case DoSendTo(buff, now) =>
      me.(end := me.end.(tx := me.end.tx.SendTo(buff, now)),
          given := me.given + [buff],
          accepted := me.accepted + PromisedBy(SendTo(buff, now), me.end.tx.queue.mtu),
          whole := me.whole && Intact(SendTo(buff, now), me.end.tx.queue.mtu),
          vanished := me.vanished || Vanishes(SendTo(buff, now), me.end.tx.queue.mtu),
          queued := me.queued + me.end.tx.MessageFor(buff))
    case DoSendSystemPacket(buff, reliability, now) =>
      me.(end := me.end.(tx := me.end.tx.SendSystemPacket(buff, reliability, now)),
          given := me.given + if reliability.IsSequencedOrOrdered() then [buff] else [],
          accepted := me.accepted + PromisedBy(SendSystemPacket(buff, reliability, now), me.end.tx.queue.mtu),
          queued := me.queued + [me.end.tx.WholeFrame(reliability, buff)])
    case DoFlushQueue(now, order) =>
      var p := me.end.tx.queue.Prepared(now, order);
      me.(end := me.end.(tx := me.end.tx.(queue := p.Emitted())),
          outgoing := me.outgoing + Elems(Datagrams(p.Emission())))
    case DoFlushAck =>
      var acks := me.end.rx.acks;
      me.(end := me.end.(rx := me.end.rx.(acks := acks.Cleared())),
          outgoing := me.outgoing + Elems(Packets(ACK_ID, acks.Acks()))
                                  + Elems(Packets(NACK_ID, Singles(acks.Nacks()))))
    case DoReceive(packet, now) =>
      me.(end := me.end.Handle(packet, now),
          released := me.released + me.end.Released(packet),
          arrived := me.arrived + me.end.Brings(packet),
          handed := me.handed + me.end.Handed(packet))
  }

  function NewSide(mtu: nat): Side {
    Side(NewEndpoint(mtu), {}, [], [], true, false, [], [], [], [])
  }

  // ---- Bytes stand for values ----

  ghost predicate IsDatagramOf(b: bytes, datagrams: set<FrameSet>) {
    exists d :: d in datagrams && SetEncodable(d) && b == EncodeFrameSet(d)
  }

  predicate Fits(c: Control) {
    c.range.0 < 0x100_0000 && c.range.1 < 0x100_0000
  }

  function IdOf(c: Control): byte {
    if c.AckOf? then ACK_ID else NACK_ID
  }

  function PacketOf(c: Control): bytes
    requires Fits(c)
  {
    EncodePacket(IdOf(c), NewRecord(c.range))
  }

  ghost predicate IsControlOf(b: bytes, controls: set<Control>) {
    exists c :: c in controls && Fits(c) && b == PacketOf(c)
  }

  /** What one end has put on the network: the datagrams of the direction it sends in, the
      feedback for the direction it receives in, and nothing else. */
  ghost predicate OutgoingIs(outgoing: set<bytes>, datagrams: set<FrameSet>, controls: set<Control>) {
    forall b :: b in outgoing <==> IsDatagramOf(b, datagrams) || IsControlOf(b, controls)
  }

  lemma MoreDatagrams(outgoing: set<bytes>, datagrams: set<FrameSet>, controls: set<Control>, sets: seq<FrameSet>)
    requires OutgoingIs(outgoing, datagrams, controls) && AllEncodable(sets)
    ensures OutgoingIs(outgoing + Elems(Datagrams(sets)), datagrams + Elems(sets), controls)
  {
    forall b
      ensures IsDatagramOf(b, datagrams + Elems(sets)) <==> IsDatagramOf(b, datagrams) || b in Datagrams(sets)
    {
      DatagramsIff(sets, b);
      if IsDatagramOf(b, datagrams + Elems(sets)) {
        var d :| d in datagrams + Elems(sets) && SetEncodable(d) && b == EncodeFrameSet(d);
        assert d in datagrams || d in sets;
      }
    }
  }

  lemma DatagramsIff(sets: seq<FrameSet>, b: bytes)
    requires AllEncodable(sets)
    ensures b in Datagrams(sets) <==> IsDatagramOf(b, Elems(sets))
  {
    if b in Datagrams(sets) {
      DatagramsAt(sets, b);
      var d :| d in sets && SetEncodable(d) && b == EncodeFrameSet(d);
      assert d in Elems(sets);
    }
    if IsDatagramOf(b, Elems(sets)) {
      var d :| d in Elems(sets) && SetEncodable(d) && b == EncodeFrameSet(d);
      DatagramsHave(sets, d);
    }
  }

  lemma AckIff(acks: AckState, b: bytes)
    requires RangesFit(acks.Acks())
    ensures b in Packets(ACK_ID, acks.Acks()) <==>
      exists r :: r in acks.Acks() && Fits(AckOf(r)) && b == PacketOf(AckOf(r))
  {
    if b in Packets(ACK_ID, acks.Acks()) {
      PacketsAt(ACK_ID, acks.Acks(), b);
      var i :| 0 <= i < |acks.Acks()| && b == EncodePacket(ACK_ID, NewRecord(acks.Acks()[i]));
      assert acks.Acks()[i] in acks.Acks() && b == PacketOf(AckOf(acks.Acks()[i]));
    }
    if r :| r in acks.Acks() && Fits(AckOf(r)) && b == PacketOf(AckOf(r)) {
      PacketsHave(ACK_ID, acks.Acks(), r);
    }
  }

  lemma NackIff(acks: AckState, b: bytes)
    requires RangesFit(Singles(acks.Nacks()))
    ensures b in Packets(NACK_ID, Singles(acks.Nacks())) <==>
      exists m :: m in acks.Nacks() && Fits(NackOf((m, m))) && b == PacketOf(NackOf((m, m)))
  {
    var singles := Singles(acks.Nacks());
    SinglesAre(acks.Nacks());
    if b in Packets(NACK_ID, singles) {
      PacketsAt(NACK_ID, singles, b);
      var i :| 0 <= i < |singles| && b == EncodePacket(NACK_ID, NewRecord(singles[i]));
      var m := acks.Nacks()[i];
      assert m in acks.Nacks() && singles[i] == (m, m) && b == PacketOf(NackOf((m, m)));
    }
    if m :| m in acks.Nacks() && Fits(NackOf((m, m))) && b == PacketOf(NackOf((m, m))) {
      var i :| 0 <= i < |singles| && acks.Nacks()[i] == m;
      assert singles[i] == (m, m);
      PacketsHave(NACK_ID, singles, (m, m));
    }
  }

  /** A report puts exactly its feedback on the network. */
  lemma ReportIff(acks: AckState, b: bytes)
    requires RangesFit(acks.Acks()) && RangesFit(Singles(acks.Nacks()))
    ensures IsControlOf(b, Feedback(acks)) <==>
      b in Packets(ACK_ID, acks.Acks()) || b in Packets(NACK_ID, Singles(acks.Nacks()))
  {
    AckIff(acks, b);
    NackIff(acks, b);
    if r :| r in acks.Acks() && Fits(AckOf(r)) && b == PacketOf(AckOf(r)) {
      assert AckOf(r) in Feedback(acks);
    }
    if m :| m in acks.Nacks() && Fits(NackOf((m, m))) && b == PacketOf(NackOf((m, m))) {
      assert NackOf((m, m)) in Feedback(acks);
    }
  }

  lemma MoreControls(outgoing: set<bytes>, datagrams: set<FrameSet>, controls: set<Control>, acks: AckState)
    requires OutgoingIs(outgoing, datagrams, controls)
    requires RangesFit(acks.Acks()) && RangesFit(Singles(acks.Nacks()))
    ensures OutgoingIs(outgoing + Elems(Packets(ACK_ID, acks.Acks())) + Elems(Packets(NACK_ID, Singles(acks.Nacks()))),
                       datagrams, controls + Feedback(acks))
  {
    forall b
      ensures IsControlOf(b, controls + Feedback(acks)) <==>
        IsControlOf(b, controls) || b in Packets(ACK_ID, acks.Acks()) || b in Packets(NACK_ID, Singles(acks.Nacks()))
    {
      ReportIff(acks, b);
      ControlOfEither(b, controls, Feedback(acks));
    }
  }

  lemma ControlOfEither(b: bytes, cs: set<Control>, ds: set<Control>)
    ensures IsControlOf(b, cs + ds) <==> IsControlOf(b, cs) || IsControlOf(b, ds)
  {
    if IsControlOf(b, cs + ds) {
      var c :| c in cs + ds && Fits(c) && b == PacketOf(c);
      assert c in cs || c in ds;
    }
  }

  // ---- What the wire needs of a direction ----

  ghost predicate FramesCanonical(given: seq<Frame>) {
    forall f :: f in given ==> Canonical(f)
  }

  ghost predicate Readable(d: FrameSet) {
    SetEncodable(d) && SetCanonical(d) && RouteOf(d.header) == ToDatagram
  }

  /** Everything on the network can be written, and reads back as what it was. */
  ghost predicate NetFits(l: Link) {
    && |l.emitted| <= 0x100_0000
    && (forall d :: d in l.datagrams ==> Readable(d))
    && (forall c :: c in l.controls ==> Fits(c))
  }

  ghost predicate FramesFitWire(l: Link) {
    && MIN_MTU <= l.tx.queue.mtu <= MAX_MTU
    && FramesCanonical(l.given) && FieldsInv(l.given, l.tx) && SizeInv(l, l.tx.queue.mtu)
  }

  ghost predicate OnWire(l: Link) {
    Reachable(l) && FramesFitWire(l) && NetFits(l)
  }

  lemma MessageIsCanonical(s: Sender, buff: bytes)
    requires MIN_MTU <= s.queue.mtu <= MAX_MTU
    ensures FramesCanonical(s.MessageFor(buff))
  {
    SendToFrameSizes(s, buff);
    if !FitsOneFrame(|buff|, s.queue.mtu) { FragmentsAre(s, buff, |s.MessageFor(buff)|); }
  }

  lemma StaysCanonical(l: Link, step: Step)
    requires Safe(l, step) && l.tx.queue.mtu <= MAX_MTU && FramesCanonical(l.given)
    requires step.SendSystemPacket? ==> |step.buff| < 0x2000
    ensures FramesCanonical(Next(l, step).given)
  {
    if step.SendTo? { MessageIsCanonical(l.tx, step.buff); }
  }

  /** The step sends nothing that cannot be written. */
  ghost predicate Writes(l: Link, step: Step) {
    match step
    case SendSystemPacket(buff, _, _) => |buff| < 0x2000
    case Flush(now, order) =>
      l.tx.queue.Prepared(now, order).Valid() && AllEncodable(l.tx.queue.Prepared(now, order).Emission())
    case _ => true
  }

  lemma StepFitsWire(l: Link, step: Step)
    requires Inv(l) && Possible(l, step) && Writes(l, step) && FramesFitWire(l)
    ensures Safe(l, step) && Inv(Next(l, step)) && FramesFitWire(Next(l, step))
    ensures Next(l, step).tx.queue.mtu == l.tx.queue.mtu
  {
    StepFacts(l, step);
    StepKeepsSizes(l, step, l.tx.queue.mtu);
    StepKeepsFields(l, step);
    StaysCanonical(l, step);
  }

  lemma DatagramIsReadable(l: Link, d: FrameSet)
    requires Inv(l) && FramesFitWire(l) && d in l.datagrams
    ensures SetCanonical(d) && RouteOf(d.header) == ToDatagram
  {
    DatagramIsFromLog(l, d);
    DatagramIsSized(l, l.tx.queue.mtu, d);
  }

  lemma NumbersFit(emitted: seq<FrameSet>, more: seq<FrameSet>)
    requires |emitted| <= 0x100_0000 && AllEncodable(more)
    requires forall i :: 0 <= i < |emitted + more| ==> (emitted + more)[i].sequenceNumber == i
    ensures |emitted + more| <= 0x100_0000
  {
    if more != [] { assert (emitted + more)[|emitted| + |more| - 1] == more[|more| - 1]; }
  }

  lemma FlushFitsNet(l: Link, now: nat, order: seq<nat>)
    requires NetFits(l) && Possible(l, Flush(now, order)) && Safe(l, Flush(now, order)) && Writes(l, Flush(now, order))
    requires Inv(Next(l, Flush(now, order))) && FramesFitWire(Next(l, Flush(now, order)))
    ensures NetFits(Next(l, Flush(now, order)))
  {
    var m, sets := Next(l, Flush(now, order)), l.tx.queue.Prepared(now, order).Emission();
    NumbersFit(l.emitted, sets);
    forall d | d in m.datagrams
      ensures Readable(d)
    {
      DatagramIsReadable(m, d);
      assert d in l.datagrams || d in sets;
    }
  }

  lemma ReportFitsNet(l: Link)
    requires Inv(l) && NetFits(l)
    ensures RangesFit(l.rx.acks.Acks()) && RangesFit(Singles(l.rx.acks.Nacks()))
    ensures NetFits(Next(l, FlushAck))
  {
    var acks := l.rx.acks;
    ReportFits(acks);
    SinglesAre(acks.Nacks());
    forall c | c in Feedback(acks)
      ensures Fits(c)
    {
      if c.AckOf? {
        var i :| 0 <= i < |acks.Acks()| && acks.Acks()[i] == c.range;
      } else {
        var i :| 0 <= i < |acks.Nacks()| && (acks.Nacks()[i], acks.Nacks()[i]) == c.range;
        assert Singles(acks.Nacks())[i] == c.range;
      }
    }
  }

  lemma StepFitsNet(l: Link, step: Step)
    requires Inv(l) && Possible(l, step) && Writes(l, step) && FramesFitWire(l) && NetFits(l)
    ensures Safe(l, step) && NetFits(Next(l, step))
  {
    StepFitsWire(l, step);
    match step
    case Flush(now, order) => FlushFitsNet(l, now, order);
    case FlushAck => ReportFitsNet(l);
    case _ =>
  }

  /** A step of a direction, with everything that the wire needs of it. */
  lemma Advance(l: Link, step: Step)
    requires OnWire(l) && Possible(l, step) && Writes(l, step)
    ensures Safe(l, step) && OnWire(Next(l, step))
  {
    ReachableNext(l, step);
    ReachableInv(l);
    StepFitsWire(l, step);
    StepFitsNet(l, step);
  }

  // ---- Each act is a step of one direction ----

  /** Link `l` records what has happened from `from` to `to`. */
  ghost predicate Records(l: Link, from: Side, to: Side) {
    && l.tx == from.end.tx && l.rx == to.end.rx && l.delivered == to.released
    && l.given == from.queued && l.arrived == Elems(to.arrived)
    && Payloads(l.sent) == from.accepted
    && (NoneEmpty(l.sent) <==> !from.vanished)
    && (from.whole <==> from.given == from.accepted)
  }

  ghost predicate Carries(l: Link, from: Side, to: Side) {
    OnWire(l) && Records(l, from, to)
  }

  /** Link `f` is the direction away from `me`, link `g` the direction towards it. */
  ghost predicate Represents(me: Side, peer: Side, f: Link, g: Link) {
    && Carries(f, me, peer) && Carries(g, peer, me)
    && OutgoingIs(me.outgoing, f.datagrams, g.controls) && OutgoingIs(peer.outgoing, g.datagrams, f.controls)
  }

  /** Link `m` is `l`, or follows from it by one possible step. */
  ghost predicate Onward(l: Link, m: Link) {
    l == m || exists step :: Possible(l, step) && Safe(l, step) && m == Next(l, step)
  }

  lemma OnwardBy(l: Link, step: Step)
    requires Possible(l, step) && Safe(l, step)
    ensures Onward(l, Next(l, step))
  {
  }

  lemma SameEnd(a: seq<bytes>, b: seq<bytes>, s: seq<bytes>)
    ensures a == b <==> a + s == b + s
  {
    if a + s == b + s {
      assert |a| == |b|;
      assert a == (a + s)[..|a|] && b == (b + s)[..|b|];
    }
  }

  lemma SameLastPayload(a: seq<bytes>, b: seq<bytes>, x: bytes, y: bytes)
    ensures a == b && x == y <==> a + [x] == b + [y]
  {
    if a + [x] == b + [y] {
      assert |a| == |b| && (a + [x])[|a|] == (b + [y])[|b|];
      SameEnd(a, b, [x]);
    }
  }

  /** One more payload is carried whole exactly when its length is not cut short. */
  lemma OneMoreWhole(given: seq<bytes>, accepted: seq<bytes>, buff: bytes, mtu: nat)
    requires mtu >= MIN_MTU
    ensures given == accepted && Intact(SendTo(buff, 0), mtu) <==> given + [buff] == accepted + [Carried(buff, mtu)]
  {
    var tx := Sender(EmptyQueue(mtu), 0, 0, 0);
    WholePayloadCarriedIff(tx, buff);
    MessageForCarries(tx, buff);
    SameLastPayload(given, accepted, buff, Carried(buff, mtu));
  }

  lemma SendToRecords(l: Link, from: Side, to: Side, buff: bytes, now: nat)
    requires Records(l, from, to) && Reachable(l) && l.tx.queue.mtu >= MIN_MTU
    requires Possible(l, SendTo(buff, now)) && CanAct(from, to, DoSendTo(buff, now))
    ensures Records(Next(l, SendTo(buff, now)), AfterAct(from, to, DoSendTo(buff, now)), to)
  {
    NextPromises(l, SendTo(buff, now));
    OneMoreWhole(from.given, from.accepted, buff, l.tx.queue.mtu);
  }

  lemma SystemPacketRecords(l: Link, from: Side, to: Side, buff: bytes, reliability: Reliability, now: nat)
    requires Records(l, from, to) && Reachable(l) && l.tx.queue.mtu >= MIN_MTU
    requires CanAct(from, to, DoSendSystemPacket(buff, reliability, now))
    ensures Records(Next(l, SendSystemPacket(buff, reliability, now)),
                    AfterAct(from, to, DoSendSystemPacket(buff, reliability, now)), to)
  {
    NextPromises(l, SendSystemPacket(buff, reliability, now));
    SameEnd(from.given, from.accepted, if reliability.IsSequencedOrOrdered() then [buff] else []);
  }

  /** Steps that send no payload leave the record of payloads as it was. */
  lemma QuietRecords(l: Link, from: Side, to: Side, step: Step, from': Side, to': Side)
    requires Records(l, from, to) && Reachable(l) && Possible(l, step) && Safe(l, step)
    requires !step.SendTo? && !step.SendSystemPacket?
    requires from'.given == from.given && from'.accepted == from.accepted
    requires from'.whole == from.whole && from'.vanished == from.vanished
    requires from'.end.tx == Next(l, step).tx && to'.end.rx == Next(l, step).rx
    requires from'.queued == from.queued
    requires to'.released == Next(l, step).delivered && Elems(to'.arrived) == Next(l, step).arrived
    ensures Records(Next(l, step), from', to')
  {
  }

  lemma ActSendTo(me: Side, peer: Side, f: Link, g: Link, buff: bytes, now: nat)
    requires Represents(me, peer, f, g) && CanAct(me, peer, DoSendTo(buff, now))
    ensures Safe(f, SendTo(buff, now))
    ensures Represents(AfterAct(me, peer, DoSendTo(buff, now)), peer, Next(f, SendTo(buff, now)), g)
  {
    Advance(f, SendTo(buff, now));
    SendToRecords(f, me, peer, buff, now);
  }

  lemma ActSendSystemPacket(me: Side, peer: Side, f: Link, g: Link, buff: bytes, reliability: Reliability, now: nat)
    requires Represents(me, peer, f, g) && CanAct(me, peer, DoSendSystemPacket(buff, reliability, now))
    ensures Safe(f, SendSystemPacket(buff, reliability, now))
    ensures Represents(AfterAct(me, peer, DoSendSystemPacket(buff, reliability, now)), peer,
                       Next(f, SendSystemPacket(buff, reliability, now)), g)
  {
    Advance(f, SendSystemPacket(buff, reliability, now));
    SystemPacketRecords(f, me, peer, buff, reliability, now);
  }

  lemma ActFlushQueue(me: Side, peer: Side, f: Link, g: Link, now: nat, order: seq<nat>)
    requires Represents(me, peer, f, g) && CanAct(me, peer, DoFlushQueue(now, order))
    ensures Safe(f, Flush(now, order))
    ensures Represents(AfterAct(me, peer, DoFlushQueue(now, order)), peer, Next(f, Flush(now, order)), g)
  {
    ReachableInv(f);
    PreparedIsValid(f.tx.queue, now, order);
    Advance(f, Flush(now, order));
    QuietRecords(f, me, peer, Flush(now, order), AfterAct(me, peer, DoFlushQueue(now, order)), peer);
    MoreDatagrams(me.outgoing, f.datagrams, g.controls, f.tx.queue.Prepared(now, order).Emission());
  }

  lemma ActFlushAck(me: Side, peer: Side, f: Link, g: Link)
    requires Represents(me, peer, f, g) && CanAct(me, peer, DoFlushAck)
    ensures Safe(g, FlushAck) && Represents(AfterAct(me, peer, DoFlushAck), peer, f, Next(g, FlushAck))
  {
    Advance(g, FlushAck);
    QuietRecords(g, peer, me, FlushAck, peer, AfterAct(me, peer, DoFlushAck));
    MoreControls(me.outgoing, f.datagrams, g.controls, g.rx.acks);
  }

  lemma DatagramHandled(e: Endpoint, d: FrameSet, now: nat)
    requires Readable(d)
    ensures var b := EncodeFrameSet(d);
            && b != [] && e.Released(b) == e.rx.OrderedAll(d.datas) && e.Brings(b) == d.datas
            && e.Handle(b, now) == e.(rx := e.rx.HandleDatagram(d))
  {
    FrameSetReadsBack(d);
  }

  /** A datagram of the direction towards `me` arrives. */
  lemma ActReceiveDatagram(me: Side, peer: Side, f: Link, g: Link, d: FrameSet, now: nat)
    requires Represents(me, peer, f, g) && d in g.datagrams && SetEncodable(d)
    ensures CanAct(me, peer, DoReceive(EncodeFrameSet(d), now)) && Safe(g, Deliver(d))
    ensures Represents(AfterAct(me, peer, DoReceive(EncodeFrameSet(d), now)), peer, f, Next(g, Deliver(d)))
  {
    DatagramHandled(me.end, d, now);
    ElemsJoin(me.arrived, d.datas);
    assert IsDatagramOf(EncodeFrameSet(d), g.datagrams);
    Advance(g, Deliver(d));
    QuietRecords(g, peer, me, Deliver(d), peer, AfterAct(me, peer, DoReceive(EncodeFrameSet(d), now)));
  }

  /** What feedback changes at the end that receives it. */
  lemma ControlAtEnd(me: Side, peer: Side, f: Link, c: Control, now: nat)
    requires me.end.tx == f.tx && me.end.tx.queue.mtu >= MIN_MTU && Safe(f, DeliverControl(c, now)) && Fits(c)
    requires PacketOf(c) in peer.outgoing
    ensures CanAct(me, peer, DoReceive(PacketOf(c), now))
    ensures AfterAct(me, peer, DoReceive(PacketOf(c), now)) ==
      me.(end := me.end.(tx := Next(f, DeliverControl(c, now)).tx))
  {
    PacketHandled(me.end, IdOf(c), c.range, now);
    assert me.released + [] == me.released && me.arrived + [] == me.arrived && me.handed + [] == me.handed;
  }

  /** Feedback for the direction away from `me` arrives. */
  lemma ActReceiveControl(me: Side, peer: Side, f: Link, g: Link, c: Control, now: nat)
    requires Represents(me, peer, f, g) && c in f.controls && Fits(c)
    ensures CanAct(me, peer, DoReceive(PacketOf(c), now)) && Safe(f, DeliverControl(c, now))
    ensures Represents(AfterAct(me, peer, DoReceive(PacketOf(c), now)), peer, Next(f, DeliverControl(c, now)), g)
  {
    assert IsControlOf(PacketOf(c), f.controls);
    Advance(f, DeliverControl(c, now));
    ControlAtEnd(me, peer, f, c, now);
    var tx' := Next(f, DeliverControl(c, now)).tx;
    QuietRecords(f, me, peer, DeliverControl(c, now), me.(end := me.end.(tx := tx')), peer);
  }

  /** Whatever bytes of its peer arrive at one end, they are a step of one direction. */
  lemma ActReceive(me: Side, peer: Side, f: Link, g: Link, packet: bytes, now: nat) returns (f': Link, g': Link)
    requires Represents(me, peer, f, g) && CanAct(me, peer, DoReceive(packet, now))
    ensures Represents(AfterAct(me, peer, DoReceive(packet, now)), peer, f', g') && Onward(f, f') && Onward(g, g')
  {
    f', g' := f, g;
    if IsDatagramOf(packet, g.datagrams) {
      var d :| d in g.datagrams && SetEncodable(d) && packet == EncodeFrameSet(d);
      ActReceiveDatagram(me, peer, f, g, d, now);
      g' := Next(g, Deliver(d));
      OnwardBy(g, Deliver(d));
    } else {
      var c :| c in f.controls && Fits(c) && packet == PacketOf(c);
      ActReceiveControl(me, peer, f, g, c, now);
      f' := Next(f, DeliverControl(c, now));
      OnwardBy(f, DeliverControl(c, now));
    }
  }

  /** Whatever one end does, one direction takes a possible step or none, and the other
      stays as it is. */
  lemma ActIsLinkStep(me: Side, peer: Side, f: Link, g: Link, act: Act) returns (f': Link, g': Link)
    requires Represents(me, peer, f, g) && CanAct(me, peer, act)
    ensures Represents(AfterAct(me, peer, act), peer, f', g') && Onward(f, f') && Onward(g, g')
  {
    f', g' := f, g;
    match act
    case DoSendTo(buff, now) =>
      ActSendTo(me, peer, f, g, buff, now);
      f' := Next(f, SendTo(buff, now));
      OnwardBy(f, SendTo(buff, now));
    case DoSendSystemPacket(buff, reliability, now) =>
      ActSendSystemPacket(me, peer, f, g, buff, reliability, now);
      f' := Next(f, SendSystemPacket(buff, reliability, now));
      OnwardBy(f, SendSystemPacket(buff, reliability, now));
    case DoFlushQueue(now, order) =>
      ActFlushQueue(me, peer, f, g, now, order);
      f' := Next(f, Flush(now, order));
      OnwardBy(f, Flush(now, order));
    case DoFlushAck =>
      ActFlushAck(me, peer, f, g);
      g' := Next(g, FlushAck);
      OnwardBy(g, FlushAck);
    case DoReceive(packet, now) =>
      f', g' := ActReceive(me, peer, f, g, packet, now);
  }
}

/** One direction of a connection as a transition system: the sending half of one session,
    the receiving half of its peer, and between them a network that may lose, repeat and
    reorder everything it is given. Loss is a datagram that is never delivered. */
module Links {
  import opened Frames
  import opened SendQueues
  import opened AckQueues
  import opened ReceiveQueues
  import opened OrderedDelivery
  import opened Sessions

  datatype Control = AckOf(range: Range) | NackOf(range: Range) {
    predicate Covers(s: nat) {
      range.0 <= s <= range.1
    }
  }

  /** The fields after `controls` only record what has happened. */
  datatype Link = Link(
    tx: Sender,
    rx: Receiver,
    datagrams: set<FrameSet>,
    controls: set<Control>,
    given: seq<Frame>,          // every frame handed to the sending queue
    sent: seq<Message>,         // the ordered payloads, as the frames that carry them
    emitted: seq<FrameSet>,     // everything put on the network
    discarded: seq<FrameSet>,   // everything dropped from the sending queue on an ACK
    processed: set<nat>,        // the numbers of the frame sets the receiver has handled
    arrived: set<Frame>,        // the frames in them
    delivered: seq<Frame>)      // what the receiving queue has released

  datatype Step =
    | SendTo(buff: bytes, now: nat)
    | SendSystemPacket(buff: bytes, reliability: Reliability, now: nat)
    | Flush(now: nat, order: seq<nat>)
    | Deliver(datagram: FrameSet)
    | FlushAck
    | DeliverControl(control: Control, now: nat)

  function Initial(mtu: nat): Link {
    Link(Sender(EmptyQueue(mtu), 0, 0, 0), EmptyHalf, {}, {}, [], [], [], [], {}, {}, [])
  }

  /** What the outside world must provide for a step. The 16-bit split id is the one
      counter whose overflow is in reach; it stops the program. */
  ghost predicate Possible(l: Link, step: Step) {
    match step
    case SendTo(buff, _) => FitsOneFrame(|buff|, l.tx.queue.mtu) || l.tx.splitId + 1 < 0x1_0000
    case SendSystemPacket(_, _, _) => true
    case Flush(now, order) => Enumerates(order, l.tx.queue.CloseBatch(now).Expired(now))
    case Deliver(datagram) => datagram in l.datagrams
    case FlushAck => true
    case DeliverControl(control, _) => control in l.controls
  }

  /** The lookups of the step succeed; a failing one would stop the program. */
  ghost predicate Safe(l: Link, step: Step) {
    match step
    case SendTo(_, _) => l.tx.queue.mtu >= MIN_MTU
    case Flush(now, order) =>
      var p := l.tx.queue.Prepared(now, order);
      p.sendMin <= p.max && p.Window()
    case DeliverControl(_, _) => forall k :: k in l.tx.queue.timePassed ==> k in l.tx.queue.queue
    case _ => true
  }

  ghost function Next(l: Link, step: Step): Link
    requires Safe(l, step)
  {
    match step
    case SendTo(buff, now) =>
      var m := l.tx.MessageFor(buff);
      l.(tx := l.tx.SendTo(buff, now), given := l.given + m, sent := l.sent + [m])
    case SendSystemPacket(buff, reliability, now) =>
      var m := [l.tx.WholeFrame(reliability, buff)];
      l.(tx := l.tx.SendSystemPacket(buff, reliability, now), given := l.given + m,
         sent := if reliability.IsSequencedOrOrdered() then l.sent + [m] else l.sent)
    case Flush(now, order) =>
      var p := l.tx.queue.Prepared(now, order);
      l.(tx := l.tx.(queue := p.Emitted()),
         datagrams := l.datagrams + Elems(p.Emission()),
         emitted := l.emitted + p.Emission())
    case Deliver(datagram) =>
      l.(rx := l.rx.HandleDatagram(datagram),
         processed := l.processed + {datagram.sequenceNumber},
         arrived := l.arrived + Elems(datagram.datas),
         delivered := l.delivered + l.rx.OrderedAll(datagram.datas))
    case FlushAck =>
      l.(rx := l.rx.(acks := l.rx.acks.Cleared()), controls := l.controls + Feedback(l.rx.acks))
    case DeliverControl(AckOf(range), _) =>
      l.(tx := l.tx.(queue := l.tx.queue.ReceivedAll(Numbers(range))),
         discarded := l.discarded + l.tx.queue.Removed(Numbers(range)))
    case DeliverControl(NackOf(range), now) =>
      l.(tx := l.tx.(queue := l.tx.queue.ResendAll(Numbers(range), now)))
  }

  /** The ACKs and NACKs that a report sends out. */
  ghost function Feedback(acks: AckState): set<Control> {
    (set r | r in acks.Acks() :: AckOf(r)) + (set m | m in acks.Nacks() :: NackOf((m, m)))
  }

  /** A run: every state follows from the one before by a possible, safe step. */
  ghost predicate Reaches(l: Link, steps: seq<Step>, l': Link)
    decreases |steps|
  {
    if steps == [] then l == l'
    else Possible(l, steps[0]) && Safe(l, steps[0]) && Reaches(Next(l, steps[0]), steps[1..], l')
  }

  // ---- The invariant ----

  /** What has been emitted carries the numbers 0, 1, 2, ..., each with one content. */
  ghost predicate QueueInv(q: SendQueue, emitted: seq<FrameSet>) {
    && q.Valid() && q.mtu >= MIN_MTU && |emitted| == q.sendMin
    && (forall i :: 0 <= i < |emitted| ==> emitted[i].sequenceNumber == i)
    && (forall k :: k in q.queue && k < q.sendMin ==> q.queue[k] == emitted[k])
  }

  /** No frame is lost or made: each is queued or discarded as often as it was given. */
  ghost predicate Conserved(given: seq<Frame>, q: SendQueue, discarded: seq<FrameSet>) {
    forall f: Frame :: multiset(given)[f] == q.Count(f) + CountIn(discarded, f)
  }

  ghost predicate LogInv(given: seq<Frame>, sent: seq<Message>, orderIndex: nat, splitId: nat) {
    && orderIndex == |sent| && WellFormedLog(sent, splitId)
    && (forall f :: f in given ==> FromLog(f, sent))
    && (forall o, i :: 0 <= o < |sent| && 0 <= i < |sent[o]| ==> sent[o][i] in given)
  }

  /** The network carries only what the two ends put there. */
  ghost predicate NetInv(datagrams: set<FrameSet>, controls: set<Control>,
                         emitted: seq<FrameSet>, processed: set<nat>) {
    && (forall d :: d in datagrams ==> d.sequenceNumber < |emitted| && emitted[d.sequenceNumber] == d)
    && (forall c, s: nat :: c in controls && c.Covers(s) ==> s < |emitted| && (c.AckOf? ==> s in processed))
  }

  ghost predicate GivenInv(emitted: seq<FrameSet>, given: seq<Frame>) {
    forall i, f :: 0 <= i < |emitted| && f in emitted[i].datas ==> f in given
  }

  /** What is reported as received has been handled, frame by frame. */
  ghost predicate ReportInv(acks: AckState, emitted: seq<FrameSet>, processed: set<nat>, arrived: set<Frame>) {
    && acks.Valid() && acks.highest <= |emitted|
    && (forall s :: s in acks.store ==> s in processed)
    && (forall s :: s in processed ==> s < |emitted|)
    && (forall s, f :: s in processed && f in emitted[s].datas ==> f in arrived)
  }

  ghost predicate DiscardInv(discarded: seq<FrameSet>, emitted: seq<FrameSet>, processed: set<nat>) {
    forall d :: d in discarded ==>
      d.sequenceNumber in processed && d.sequenceNumber < |emitted| && d == emitted[d.sequenceNumber]
  }

  ghost predicate Inv(l: Link) {
    && QueueInv(l.tx.queue, l.emitted)
    && Conserved(l.given, l.tx.queue, l.discarded)
    && LogInv(l.given, l.sent, l.tx.orderIndex, l.tx.splitId)
    && NetInv(l.datagrams, l.controls, l.emitted, l.processed)
    && GivenInv(l.emitted, l.given)
    && ReportInv(l.rx.acks, l.emitted, l.processed, l.arrived)
    && DiscardInv(l.discarded, l.emitted, l.processed)
    && (forall f :: f in l.arrived ==> f in l.given)
    && Matches(l.rx.received, l.delivered, l.sent, l.arrived, l.tx.splitId)
  }

  lemma InitialInv(mtu: nat)
    requires mtu >= MIN_MTU
    ensures Inv(Initial(mtu))
  {
  }

  // ---- Sending ----

  lemma QueueInvAdd(q: SendQueue, emitted: seq<FrameSet>, frames: seq<Frame>, now: nat)
    requires QueueInv(q, emitted)
    ensures QueueInv(q.AddAll(frames, now), emitted)
  {
    AddAllKeeps(q, frames, now);
  }

  lemma ConservedAdd(given: seq<Frame>, q: SendQueue, discarded: seq<FrameSet>, frames: seq<Frame>, now: nat)
    requires Conserved(given, q, discarded)
    ensures Conserved(given + frames, q.AddAll(frames, now), discarded)
  {
    forall f: Frame
      ensures multiset(given + frames)[f] == q.AddAll(frames, now).Count(f) + CountIn(discarded, f)
    {
      AddAllCounts(q, frames, now, f);
      assert multiset(given)[f] == q.Count(f) + CountIn(discarded, f);
    }
  }

  lemma LogInvAdd(given: seq<Frame>, sent: seq<Message>, m: Message, splitId: nat, splitId': nat)
    requires LogInv(given, sent, |sent|, splitId) && WellFormed(m, |sent|)
    requires splitId <= splitId' && (IsFragmented(m) ==> m[0].splitId == splitId < splitId')
    ensures LogInv(given + m, sent + [m], |sent| + 1, splitId')
  {
  }

  lemma SendKeepsInv(l: Link, m: Message, now: nat, messageIndex: nat, splitId': nat)
    requires Inv(l) && WellFormed(m, |l.sent|)
    requires l.tx.splitId <= splitId' && (IsFragmented(m) ==> m[0].splitId == l.tx.splitId < splitId')
    ensures Inv(l.(tx := Sender(l.tx.queue.AddAll(m, now), messageIndex, l.tx.orderIndex + 1, splitId'),
                   given := l.given + m, sent := l.sent + [m]))
  {
    QueueInvAdd(l.tx.queue, l.emitted, m, now);
    ConservedAdd(l.given, l.tx.queue, l.discarded, m, now);
    LogInvAdd(l.given, l.sent, m, l.tx.splitId, splitId');
    assert forall f :: f in l.arrived ==> FromLog(f, l.sent);
    LogGrows(l.rx.received, l.delivered, l.sent, l.arrived, m, l.tx.splitId, splitId');
  }

  lemma AddAllOne(q: SendQueue, f: Frame, now: nat)
    ensures q.AddAll([f], now) == q.AddFrame(f, now)
  {
    assert [f][..0] == [];
  }

  lemma SendToKeepsInv(l: Link, buff: bytes, now: nat)
    requires Inv(l)
    ensures Inv(Next(l, SendTo(buff, now)))
  {
    MessageForIsWellFormed(l.tx, buff);
    var tx' := l.tx.SendTo(buff, now);
    SendKeepsInv(l, l.tx.MessageFor(buff), now, tx'.messageIndex, tx'.splitId);
  }

  lemma UnorderedKeepsInv(l: Link, f: Frame, now: nat, messageIndex: nat)
    requires Inv(l) && !f.reliability.IsSequencedOrOrdered()
    ensures Inv(l.(tx := l.tx.(queue := l.tx.queue.AddAll([f], now), messageIndex := messageIndex),
                   given := l.given + [f]))
  {
    QueueInvAdd(l.tx.queue, l.emitted, [f], now);
    ConservedAdd(l.given, l.tx.queue, l.discarded, [f], now);
  }

  lemma SendSystemPacketKeepsInv(l: Link, buff: bytes, reliability: Reliability, now: nat)
    requires Inv(l)
    ensures Inv(Next(l, SendSystemPacket(buff, reliability, now)))
  {
    var f := l.tx.WholeFrame(reliability, buff);
    AddAllOne(l.tx.queue, f, now);
    if reliability.IsSequencedOrOrdered() {
      SystemMessage(l.tx, reliability, buff);
      SendKeepsInv(l, [f], now, l.tx.SendSystemPacket(buff, reliability, now).messageIndex, l.tx.splitId);
    } else {
      UnorderedKeepsInv(l, f, now, l.tx.SendSystemPacket(buff, reliability, now).messageIndex);
    }
  }

  // ---- Emission ----

  lemma {:induction false} CountBelowHas(q: map<nat, FrameSet>, k: nat, n: nat, f: Frame)
    requires k in q && k < n && f in q[k].datas
    ensures CountBelow(q, n, f) > 0
  {
    if k < n - 1 { CountBelowHas(q, k, n - 1, f); }
  }

  lemma QueueInvFlush(q: SendQueue, emitted: seq<FrameSet>, now: nat, order: seq<nat>)
    requires QueueInv(q, emitted) && Enumerates(order, q.CloseBatch(now).Expired(now))
    ensures q.Prepared(now, order).Valid()
    ensures QueueInv(q.Prepared(now, order).Emitted(), emitted + q.Prepared(now, order).Emission())
  {
    var p := q.Prepared(now, order);
    PreparedIsValid(q, now, order);
    EmittedIsValid(p);
    var emitted' := emitted + p.Emission();
    forall i | 0 <= i < |emitted'|
      ensures emitted'[i].sequenceNumber == i
    {
      if i >= p.sendMin { EmissionAt(p, i); }
    }
    forall k | k in p.queue
      ensures p.queue[k] == emitted'[k]
    {
      if k < q.sendMin { NotOverdueStays(q, now, order, k); } else { EmissionAt(p, k); }
    }
  }

  lemma ConservedFlush(given: seq<Frame>, q: SendQueue, discarded: seq<FrameSet>, now: nat, order: seq<nat>)
    requires Conserved(given, q, discarded) && q.Valid() && Enumerates(order, q.CloseBatch(now).Expired(now))
    ensures Conserved(given, q.Prepared(now, order).Emitted(), discarded)
  {
    forall f: Frame
      ensures multiset(given)[f] == q.Prepared(now, order).Emitted().Count(f) + CountIn(discarded, f)
    {
      EmissionCounts(q, now, order, f);
      assert multiset(given)[f] == q.Count(f) + CountIn(discarded, f);
    }
  }

  /** Whatever the queue holds was given to it. */
  lemma HeldWasGiven(given: seq<Frame>, q: SendQueue, discarded: seq<FrameSet>, k: nat, f: Frame)
    requires Conserved(given, q, discarded) && k in q.queue && k < q.max && f in q.queue[k].datas
    ensures f in given
  {
    CountBelowHas(q.queue, k, q.max, f);
    assert multiset(given)[f] == q.Count(f) + CountIn(discarded, f);
  }

  lemma GivenInvFlush(given: seq<Frame>, p: SendQueue, emitted: seq<FrameSet>, discarded: seq<FrameSet>)
    requires p.Valid() && |emitted| == p.sendMin && Conserved(given, p.Emitted(), discarded) && GivenInv(emitted, given)
    ensures GivenInv(emitted + p.Emission(), given)
  {
    var emitted' := emitted + p.Emission();
    forall i, f | 0 <= i < |emitted'| && f in emitted'[i].datas
      ensures f in given
    {
      if i >= |emitted| {
        EmissionAt(p, i);
        HeldWasGiven(given, p.Emitted(), discarded, i, f);
      }
    }
  }

  lemma NetInvFlush(l: Link, p: SendQueue)
    requires NetInv(l.datagrams, l.controls, l.emitted, l.processed)
    requires p.Valid() && |l.emitted| == p.sendMin
    ensures NetInv(l.datagrams + Elems(p.Emission()), l.controls, l.emitted + p.Emission(), l.processed)
  {
  }

  lemma FlushKeepsInv(l: Link, now: nat, order: seq<nat>)
    requires Inv(l) && Possible(l, Flush(now, order))
    ensures Safe(l, Flush(now, order)) && Inv(Next(l, Flush(now, order)))
  {
    var p := l.tx.queue.Prepared(now, order);
    QueueInvFlush(l.tx.queue, l.emitted, now, order);
    ConservedFlush(l.given, l.tx.queue, l.discarded, now, order);
    PreparedIsValid(l.tx.queue, now, order);
    GivenInvFlush(l.given, p, l.emitted, l.discarded);
    NetInvFlush(l, p);
  }

  // ---- Delivery ----

  lemma ReceiveSnoc(rx: Receiver, delivered: seq<Frame>, arrived: set<Frame>, front: seq<Frame>, f: Frame)
    ensures rx.ReceiveAll(front + [f]) == rx.ReceiveAll(front).ReceivePacket(f)
    ensures delivered + rx.OrderedAll(front + [f]) == delivered + rx.OrderedAll(front) + rx.ReceiveAll(front).Ordered(f)
    ensures arrived + Elems(front + [f]) == arrived + Elems(front) + {f}
  {
    assert (front + [f])[..|front|] == front;
  }

  lemma {:induction false} ReceiveAllMatches(rx: Receiver, delivered: seq<Frame>, sent: seq<Message>,
                                              arrived: set<Frame>, limit: nat, frames: seq<Frame>)
    requires WellFormedLog(sent, limit) && Matches(rx.received, delivered, sent, arrived, limit)
    requires forall f :: f in frames ==> FromLog(f, sent)
    ensures Matches(rx.ReceiveAll(frames).received, delivered + rx.OrderedAll(frames), sent,
                    arrived + Elems(frames), limit)
  {
    if frames == [] {
      assert delivered + [] == delivered && arrived + Elems([]) == arrived;
      return;
    }
    var front, f := frames[..|frames| - 1], frames[|frames| - 1];
    assert frames == front + [f];
    ReceiveAllMatches(rx, delivered, sent, arrived, limit, front);
    ReceiveSnoc(rx, delivered, arrived, front, f);
    ReceiveOneMatches(rx.ReceiveAll(front), delivered + rx.OrderedAll(front), sent, arrived + Elems(front), f, limit);
  }

  lemma ReceiveOneMatches(rx: Receiver, delivered: seq<Frame>, sent: seq<Message>, arrived: set<Frame>,
                          f: Frame, limit: nat)
    requires WellFormedLog(sent, limit) && Matches(rx.received, delivered, sent, arrived, limit) && FromLog(f, sent)
    ensures Matches(rx.ReceivePacket(f).received, delivered + rx.Ordered(f), sent, arrived + {f}, limit)
  {
    if f.reliability.IsSequencedOrOrdered() {
      FrameArrives(rx.received, delivered, sent, arrived, f, limit);
    } else {
      UnorderedArrives(rx.received, delivered, sent, arrived, f, limit);
      assert delivered + [] == delivered;
    }
  }

  /** An unordered frame makes no difference to any ordered payload. */
  lemma UnorderedArrives(r: RecvState, delivered: seq<Frame>, sent: seq<Message>, arrived: set<Frame>,
                         f: Frame, limit: nat)
    requires WellFormedLog(sent, limit) && Matches(r, delivered, sent, arrived, limit)
    requires !f.reliability.IsSequencedOrOrdered()
    ensures Matches(r, delivered, sent, arrived + {f}, limit)
  {
    forall o, i | 0 <= o < |sent| && 0 <= i < |sent[o]|
      ensures sent[o][i] in arrived + {f} <==> sent[o][i] in arrived
    {
      assert WellFormed(sent[o], o);
    }
    forall o | 0 <= o < |sent|
      ensures Complete(sent[o], arrived + {f}) <==> Complete(sent[o], arrived)
      ensures Tracked(r.splits, sent[o], arrived + {f})
    {
      assert Tracked(r.splits, sent[o], arrived);
    }
    forall id | id in r.splits.pool
      ensures OpenFor(r.splits, sent, arrived + {f}, id)
    {
      assert OpenFor(r.splits, sent, arrived, id);
    }
  }

  lemma ReportInvDeliver(acks: AckState, emitted: seq<FrameSet>, processed: set<nat>, arrived: set<Frame>, d: FrameSet)
    requires ReportInv(acks, emitted, processed, arrived)
    requires d.sequenceNumber < |emitted| && emitted[d.sequenceNumber] == d
    ensures ReportInv(acks.Add(d.sequenceNumber), emitted, processed + {d.sequenceNumber}, arrived + Elems(d.datas))
  {
  }

  lemma DatagramIsFromLog(l: Link, d: FrameSet)
    requires Inv(l) && d in l.datagrams
    ensures d.sequenceNumber < |l.emitted| && l.emitted[d.sequenceNumber] == d
    ensures forall f :: f in d.datas ==> f in l.given && FromLog(f, l.sent)
  {
  }

  lemma MatchesDeliver(l: Link, d: FrameSet)
    requires Inv(l) && d in l.datagrams
    ensures var r := Next(l, Deliver(d));
            && Matches(r.rx.received, r.delivered, r.sent, r.arrived, r.tx.splitId)
            && r.rx.acks == l.rx.acks.Add(d.sequenceNumber)
  {
    DatagramIsFromLog(l, d);
    ReceiveAllMatches(l.rx, l.delivered, l.sent, l.arrived, l.tx.splitId, d.datas);
    AcksDoNotMatter(l.rx, l.rx.acks.Add(d.sequenceNumber), d.datas);
    ReceiveKeepsAcks(l.rx, d.datas);
  }

  lemma DeliverKeepsInv(l: Link, d: FrameSet)
    requires Inv(l) && d in l.datagrams
    ensures Inv(Next(l, Deliver(d)))
  {
    DatagramIsFromLog(l, d);
    ReportInvDeliver(l.rx.acks, l.emitted, l.processed, l.arrived, d);
    MatchesDeliver(l, d);
  }

  lemma {:induction false} ReceiveKeepsAcks(rx: Receiver, frames: seq<Frame>)
    ensures rx.ReceiveAll(frames).acks == rx.acks
  {
    if frames != [] { ReceiveKeepsAcks(rx, frames[..|frames| - 1]); }
  }

  // ---- Feedback ----

  /** A report names as received what was stored, as missing what was not, and no number
      beyond the highest one seen. */
  lemma FeedbackIsHonest(acks: AckState, c: Control, s: nat)
    requires acks.Valid() && c in Feedback(acks) && c.Covers(s)
    ensures s < acks.highest && (c.AckOf? <==> s in acks.store)
  {
    if c.AckOf? {
      RangesAreExact(acks.store, acks.lowest, acks.highest);
      assert Names(acks.Acks(), s);
    } else {
      GapsAreSorted(acks.store, acks.lowest, acks.highest);
      assert s in acks.Nacks();
    }
  }

  lemma FlushAckKeepsInv(l: Link)
    requires Inv(l)
    ensures Inv(Next(l, FlushAck))
  {
    forall c, s: nat | c in Feedback(l.rx.acks) && c.Covers(s)
      ensures s < |l.emitted| && (c.AckOf? ==> s in l.processed)
    {
      FeedbackIsHonest(l.rx.acks, c, s);
    }
  }

  lemma ConservedAck(given: seq<Frame>, q: SendQueue, discarded: seq<FrameSet>, ks: seq<nat>)
    requires Conserved(given, q, discarded) && q.Valid() && forall k :: k in ks ==> k < q.sendMin
    ensures Conserved(given, q.ReceivedAll(ks), discarded + q.Removed(ks))
  {
    forall f: Frame
      ensures multiset(given)[f] == q.ReceivedAll(ks).Count(f) + CountIn(discarded + q.Removed(ks), f)
    {
      ReceivedAllCounts(q, ks, f);
      CountInJoin(discarded, q.Removed(ks), f);
      assert multiset(given)[f] == q.Count(f) + CountIn(discarded, f);
    }
  }

  /** With a peer that runs this code, feedback names only what has been emitted. */
  lemma ControlCovers(l: Link, c: Control)
    requires Inv(l) && c in l.controls
    ensures forall k :: k in Numbers(c.range) ==> k < l.tx.queue.sendMin && (c.AckOf? ==> k in l.processed)
  {
    forall k | k in Numbers(c.range)
      ensures k < l.tx.queue.sendMin && (c.AckOf? ==> k in l.processed)
    {
      NumbersHas(c.range, k);
      assert c.Covers(k);
    }
  }

  lemma QueueInvAck(q: SendQueue, emitted: seq<FrameSet>, ks: seq<nat>)
    requires QueueInv(q, emitted) && forall k :: k in ks ==> k < q.sendMin
    ensures QueueInv(q.ReceivedAll(ks), emitted)
  {
    ReceivedAllEffect(q, ks);
  }

  lemma DiscardInvAck(q: SendQueue, discarded: seq<FrameSet>, emitted: seq<FrameSet>, processed: set<nat>, ks: seq<nat>)
    requires QueueInv(q, emitted) && DiscardInv(discarded, emitted, processed)
    requires forall k :: k in ks ==> k < q.sendMin && k in processed
    ensures DiscardInv(discarded + q.Removed(ks), emitted, processed)
  {
    RemovedWereQueued(q, ks);
  }

  lemma AckKeepsInv(l: Link, range: Range, now: nat)
    requires Inv(l) && AckOf(range) in l.controls
    ensures Inv(Next(l, DeliverControl(AckOf(range), now)))
  {
    var ks := Numbers(range);
    ControlCovers(l, AckOf(range));
    QueueInvAck(l.tx.queue, l.emitted, ks);
    ConservedAck(l.given, l.tx.queue, l.discarded, ks);
    DiscardInvAck(l.tx.queue, l.discarded, l.emitted, l.processed, ks);
  }

  lemma ConservedNack(given: seq<Frame>, q: SendQueue, discarded: seq<FrameSet>, ks: seq<nat>, now: nat)
    requires Conserved(given, q, discarded) && q.Valid() && forall k :: k in ks ==> k < q.sendMin
    ensures Conserved(given, q.ResendAll(ks, now), discarded)
  {
    ResendAllIsRenumberAll(q, ks, now);
    forall f: Frame
      ensures multiset(given)[f] == q.ResendAll(ks, now).Count(f) + CountIn(discarded, f)
    {
      RenumberAllCounts(q, ks, now, f);
      assert multiset(given)[f] == q.Count(f) + CountIn(discarded, f);
    }
  }

  lemma QueueInvNack(q: SendQueue, emitted: seq<FrameSet>, ks: seq<nat>, now: nat)
    requires QueueInv(q, emitted) && forall k :: k in ks ==> k < q.sendMin
    ensures QueueInv(q.ResendAll(ks, now), emitted)
  {
    ResendAllIsRenumberAll(q, ks, now);
    RenumberAllEffect(q, ks, now);
  }

  lemma NackKeepsInv(l: Link, range: Range, now: nat)
    requires Inv(l) && NackOf(range) in l.controls
    ensures Inv(Next(l, DeliverControl(NackOf(range), now)))
  {
    ControlCovers(l, NackOf(range));
    QueueInvNack(l.tx.queue, l.emitted, Numbers(range), now);
    ConservedNack(l.given, l.tx.queue, l.discarded, Numbers(range), now);
  }

  // ---- Every run ----

  /** No lookup of a step the world can offer misses, and every step keeps the invariant. */
  lemma StepKeepsInv(l: Link, step: Step)
    requires Inv(l) && Possible(l, step)
    ensures Safe(l, step) && Inv(Next(l, step))
  {
    match step
    case SendTo(buff, now) => SendToKeepsInv(l, buff, now);
    case SendSystemPacket(buff, reliability, now) => SendSystemPacketKeepsInv(l, buff, reliability, now);
    case Flush(now, order) => FlushKeepsInv(l, now, order);
    case Deliver(d) => DeliverKeepsInv(l, d);
    case FlushAck => FlushAckKeepsInv(l);
    case DeliverControl(AckOf(range), now) => AckKeepsInv(l, range, now);
    case DeliverControl(NackOf(range), now) => NackKeepsInv(l, range, now);
  }

  lemma {:induction false} RunKeepsInv(l: Link, steps: seq<Step>, l': Link)
    requires Inv(l) && Reaches(l, steps, l')
    ensures Inv(l')
    decreases |steps|
  {
    if steps != [] {
      StepKeepsInv(l, steps[0]);
      RunKeepsInv(Next(l, steps[0]), steps[1..], l');
    }
  }

  /** Some run from an empty connection leads here. */
  ghost predicate Reachable(l: Link) {
    exists mtu: nat, steps: seq<Step> :: mtu >= MIN_MTU && Reaches(Initial(mtu), steps, l)
  }

  lemma ReachableInv(l: Link)
    requires Reachable(l)
    ensures Inv(l)
  {
    var mtu: nat, steps: seq<Step> :| mtu >= MIN_MTU && Reaches(Initial(mtu), steps, l);
    InitialInv(mtu);
    RunKeepsInv(Initial(mtu), steps, l);
  }

  lemma ReachesOne(l: Link, step: Step)
    requires Possible(l, step) && Safe(l, step)
    ensures Reaches(l, [step], Next(l, step))
  {
    assert Reaches(Next(l, step), [step][1..], Next(l, step));
  }

  lemma {:induction false} ReachesJoin(l: Link, a: seq<Step>, m: Link, b: seq<Step>, r: Link)
    requires Reaches(l, a, m) && Reaches(m, b, r)
    ensures Reaches(l, a + b, r)
    decreases |a|
  {
    if a == [] {
      assert a + b == b;
    } else {
      assert (a + b)[1..] == a[1..] + b;
      ReachesJoin(Next(l, a[0]), a[1..], m, b, r);
    }
  }

  lemma ReachableBy(l: Link, step: Step)
    requires Reachable(l) && Possible(l, step) && Safe(l, step)
    ensures Reachable(Next(l, step))
  {
    var mtu: nat, steps: seq<Step> :| mtu >= MIN_MTU && Reaches(Initial(mtu), steps, l);
    ReachesOne(l, step);
    ReachesJoin(Initial(mtu), steps, l, [step], Next(l, step));
  }

  /** In a reachable state no lookup of a step the world can offer misses. */
  lemma ReachableNext(l: Link, step: Step)
    requires Reachable(l) && Possible(l, step)
    ensures Safe(l, step) && Reachable(Next(l, step))
  {
    ReachableInv(l);
    StepKeepsInv(l, step);
    ReachableBy(l, step);
  }
}

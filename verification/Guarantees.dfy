/** What holds in every state a connection can reach, for every interleaving of sending,
    loss, repetition, reordering, retransmission and acknowledgement. */
module Guarantees {
  import opened Frames
  import opened SendQueues
  import opened AckQueues
  import opened ReceiveQueues
  import opened OrderedDelivery
  import opened Sessions
  import opened Links

  // ---- What a run of calls promises to deliver ----

  /** The part of a payload that its frames carry. */
  ghost function Carried(buff: bytes, mtu: nat): bytes
    requires mtu >= MIN_MTU
  {
    MessageForCarries(Sender(EmptyQueue(mtu), 0, 0, 0), buff);
    buff[..Surviving(|buff|, mtu)]
  }

  ghost function PromisedBy(step: Step, mtu: nat): seq<bytes>
    requires mtu >= MIN_MTU
  {
    match step
    case SendTo(buff, _) => [Carried(buff, mtu)]
    case SendSystemPacket(buff, reliability, _) => if reliability.IsSequencedOrOrdered() then [buff] else []
    case _ => []
  }

  ghost function Promised(steps: seq<Step>, mtu: nat): seq<bytes>
    requires mtu >= MIN_MTU
  {
    if steps == [] then [] else PromisedBy(steps[0], mtu) + Promised(steps[1..], mtu)
  }

  /** The ordered payloads as the callers passed them in. */
  ghost function Accepted(steps: seq<Step>): seq<bytes> {
    if steps == [] then []
    else
      var first := match steps[0]
        case SendTo(buff, _) => [buff]
        case SendSystemPacket(buff, reliability, _) => if reliability.IsSequencedOrOrdered() then [buff] else []
        case _ => [];
      first + Accepted(steps[1..])
  }

  ghost function Payloads(sent: seq<Message>): seq<bytes> {
    if sent == [] then [] else Payloads(sent[..|sent| - 1]) + [Payload(sent[|sent| - 1])]
  }

  ghost function Data(frames: seq<Frame>): seq<bytes> {
    if frames == [] then [] else Data(frames[..|frames| - 1]) + [frames[|frames| - 1].data]
  }

  lemma PayloadsSnoc(sent: seq<Message>, m: Message)
    ensures Payloads(sent + [m]) == Payloads(sent) + [Payload(m)]
  {
    assert (sent + [m])[..|sent|] == sent;
  }

  lemma SendToPromises(l: Link, buff: bytes, now: nat)
    requires l.tx.queue.mtu >= MIN_MTU
    ensures Payloads(Next(l, SendTo(buff, now)).sent) == Payloads(l.sent) + [Carried(buff, l.tx.queue.mtu)]
  {
    MessageForCarries(l.tx, buff);
    PayloadsSnoc(l.sent, l.tx.MessageFor(buff));
  }

  lemma SystemPacketPromises(l: Link, buff: bytes, reliability: Reliability, now: nat)
    ensures Payloads(Next(l, SendSystemPacket(buff, reliability, now)).sent) ==
      Payloads(l.sent) + if reliability.IsSequencedOrOrdered() then [buff] else []
  {
    if reliability.IsSequencedOrOrdered() {
      SystemMessage(l.tx, reliability, buff);
      PayloadsSnoc(l.sent, [l.tx.WholeFrame(reliability, buff)]);
    }
  }

  lemma StepPromises(l: Link, step: Step)
    requires Safe(l, step) && l.tx.queue.mtu >= MIN_MTU
    ensures Payloads(Next(l, step).sent) == Payloads(l.sent) + PromisedBy(step, l.tx.queue.mtu)
  {
    match step
    case SendTo(buff, now) => SendToPromises(l, buff, now);
    case SendSystemPacket(buff, reliability, now) => SystemPacketPromises(l, buff, reliability, now);
    case _ => assert Payloads(l.sent) + [] == Payloads(l.sent);
  }

  lemma StepKeepsMtu(l: Link, step: Step)
    requires Inv(l) && Possible(l, step) && Safe(l, step)
    ensures Next(l, step).tx.queue.mtu == l.tx.queue.mtu
  {
    match step
    case SendTo(buff, now) => AddAllKeeps(l.tx.queue, l.tx.MessageFor(buff), now);
    case SendSystemPacket(buff, reliability, now) =>
      AddAllOne(l.tx.queue, l.tx.WholeFrame(reliability, buff), now);
      AddAllKeeps(l.tx.queue, [l.tx.WholeFrame(reliability, buff)], now);
    case Flush(now, order) => PreparedIsValid(l.tx.queue, now, order);
    case DeliverControl(c, now) => ControlKeepsMtu(l, c, now);
    case _ =>
  }

  lemma ControlKeepsMtu(l: Link, c: Control, now: nat)
    requires Inv(l) && c in l.controls
    ensures Next(l, DeliverControl(c, now)).tx.queue.mtu == l.tx.queue.mtu
  {
    ControlCovers(l, c);
    if c.AckOf? {
      ReceivedAllEffect(l.tx.queue, Numbers(c.range));
    } else {
      ResendAllIsRenumberAll(l.tx.queue, Numbers(c.range), now);
      RenumberAllEffect(l.tx.queue, Numbers(c.range), now);
    }
  }

  /** A step of a reachable state, as far as promises are concerned. */
  lemma NextPromises(l: Link, step: Step)
    requires Reachable(l) && Possible(l, step)
    ensures Safe(l, step) && Reachable(Next(l, step)) && Next(l, step).tx.queue.mtu == l.tx.queue.mtu >= MIN_MTU
    ensures Payloads(Next(l, step).sent) == Payloads(l.sent) + PromisedBy(step, l.tx.queue.mtu)
    ensures NoneEmpty(Next(l, step).sent) <==> NoneEmpty(l.sent) && !Vanishes(step, l.tx.queue.mtu)
  {
    ReachableInv(l);
    ReachableNext(l, step);
    StepFacts(l, step);
    StepPromises(l, step);
  }

  lemma {:induction false} RunPromises(l: Link, steps: seq<Step>, l': Link)
    requires Reachable(l) && Reaches(l, steps, l') && l.tx.queue.mtu >= MIN_MTU
    ensures l'.tx.queue.mtu == l.tx.queue.mtu
    ensures Payloads(l'.sent) == Payloads(l.sent) + Promised(steps, l.tx.queue.mtu)
    decreases |steps|
  {
    if steps != [] {
      var mtu := l.tx.queue.mtu;
      NextPromises(l, steps[0]);
      RunPromises(Next(l, steps[0]), steps[1..], l');
      Regrouped(Payloads(l.sent), PromisedBy(steps[0], mtu), Promised(steps[1..], mtu));
    }
  }

  lemma InitialReachable(mtu: nat)
    requires mtu >= MIN_MTU
    ensures Reachable(Initial(mtu))
  {
    assert Reaches(Initial(mtu), [], Initial(mtu));
  }

  lemma RunFromStart(mtu: nat, steps: seq<Step>, l: Link)
    requires mtu >= MIN_MTU && Reaches(Initial(mtu), steps, l)
    ensures Reachable(l) && l.tx.queue.mtu == mtu && Payloads(l.sent) == Promised(steps, mtu)
  {
    ReachedIsReachable(mtu, steps, l);
    InitialReachable(mtu);
    RunPromises(Initial(mtu), steps, l);
    EmptyFront(Promised(steps, mtu));
  }

  lemma ReachedIsReachable(mtu: nat, steps: seq<Step>, l: Link)
    requires mtu >= MIN_MTU && Reaches(Initial(mtu), steps, l)
    ensures Reachable(l)
  {
  }

  lemma EmptyFront(payloads: seq<bytes>)
    ensures Payloads([]) + payloads == payloads
  {
  }

  lemma ResultData(m: Message, o: nat)
    requires WellFormed(m, o) && m != []
    ensures Result(m, o).data == Payload(m)
  {
  }

  lemma DataSnoc(frames: seq<Frame>, f: Frame)
    ensures Data(frames + [f]) == Data(frames) + [f.data]
  {
    assert (frames + [f])[..|frames|] == frames;
  }

  lemma {:induction false} DeliveredIsPrefix(delivered: seq<Frame>, sent: seq<Message>)
    requires |delivered| <= |sent| && forall o :: 0 <= o < |delivered| ==> delivered[o].data == Payload(sent[o])
    ensures Data(delivered) == Payloads(sent[..|delivered|])
  {
    if delivered != [] {
      var n := |delivered| - 1;
      DeliveredIsPrefix(delivered[..n], sent);
      DataSnoc(delivered[..n], delivered[n]);
      PayloadsSnoc(sent[..n], sent[n]);
      assert delivered == delivered[..n] + [delivered[n]] && sent[..n + 1] == sent[..n] + [sent[n]];
    }
  }

  lemma DeliveredData(delivered: seq<Frame>, sent: seq<Message>)
    requires |delivered| <= |sent|
    requires forall o :: 0 <= o < |sent| ==> WellFormed(sent[o], o)
    requires forall o :: 0 <= o < |delivered| ==> sent[o] != [] && delivered[o] == Result(sent[o], o)
    ensures Data(delivered) == Payloads(sent[..|delivered|])
  {
    forall o | 0 <= o < |delivered|
      ensures delivered[o].data == Payload(sent[o])
    {
      ResultData(sent[o], o);
    }
    DeliveredIsPrefix(delivered, sent);
  }

  lemma {:induction false} PayloadsPrefix(sent: seq<Message>, n: nat)
    requires n <= |sent|
    ensures Payloads(sent[..n]) <= Payloads(sent)
    ensures |Payloads(sent)| == |sent|
  {
    if n < |sent| {
      PayloadsPrefix(sent[..|sent| - 1], n);
      assert sent[..|sent| - 1][..n] == sent[..n];
    } else {
      assert sent[..n] == sent;
      if sent != [] { PayloadsPrefix(sent[..|sent| - 1], |sent| - 1); }
    }
  }

  // ---- Ordered delivery ----

  lemma ReleasedIsPrefixOfSent(l: Link)
    requires Inv(l)
    ensures Data(l.delivered) <= Payloads(l.sent)
  {
    ReleaseIsExact(l.rx.received, l.delivered, l.sent, l.arrived, l.tx.splitId);
    DeliveredData(l.delivered, l.sent);
    PayloadsPrefix(l.sent, |l.delivered|);
  }

  lemma ReachableRelease(l: Link)
    requires Reachable(l)
    ensures Data(l.delivered) <= Payloads(l.sent)
  {
    ReachableInv(l);
    ReleasedIsPrefixOfSent(l);
  }

  /** The payloads released so far are a prefix of the payloads sent, in every run. */
  lemma {:induction false} DeliveryIsAPrefix(mtu: nat, steps: seq<Step>, l: Link)
    requires mtu >= MIN_MTU && Reaches(Initial(mtu), steps, l)
    ensures Data(l.delivered) <= Promised(steps, mtu)
  {
    RunFromStart(mtu, steps, l);
    ReachableRelease(l);
  }

  /** Lengths that send_to carries in full. */
  ghost predicate Intact(step: Step, mtu: nat)
    requires mtu >= MIN_MTU
  {
    step.SendTo? ==>
      FitsOneFrame(|step.buff|, mtu) || (|step.buff| < 0x1_0000 && |step.buff| % FragmentMax(mtu) != 0)
  }

  /** Exactly when what is promised is what the callers passed in. */
  lemma {:induction false} PromisedIsAcceptedIff(steps: seq<Step>, mtu: nat)
    requires mtu >= MIN_MTU
    ensures Promised(steps, mtu) == Accepted(steps) <==> forall i :: 0 <= i < |steps| ==> Intact(steps[i], mtu)
    ensures |Promised(steps, mtu)| == |Accepted(steps)|
  {
    if steps == [] { return; }
    var p, a := Promised(steps, mtu), Accepted(steps);
    var p', a' := Promised(steps[1..], mtu), Accepted(steps[1..]);
    PromisedIsAcceptedIff(steps[1..], mtu);
    var n := |PromisedBy(steps[0], mtu)|;
    assert p[n..] == p' && a[n..] == a';
    assert steps == [steps[0]] + steps[1..];
    match steps[0]
    case SendTo(buff, _) =>
      WholePayloadCarriedIff(Sender(EmptyQueue(mtu), 0, 0, 0), buff);
      MessageForCarries(Sender(EmptyQueue(mtu), 0, 0, 0), buff);
      assert p[0] == Carried(buff, mtu) && a[0] == buff;
    case _ =>
  }

  /** The guarantee in the callers' terms: as long as no payload has a length that is cut
      short, what comes out is a prefix of what went in, byte for byte. */
  lemma {:induction false} IntactPayloadsArriveInOrder(mtu: nat, steps: seq<Step>, l: Link)
    requires mtu >= MIN_MTU && Reaches(Initial(mtu), steps, l)
    requires forall i :: 0 <= i < |steps| ==> Intact(steps[i], mtu)
    ensures Data(l.delivered) <= Accepted(steps)
  {
    DeliveryIsAPrefix(mtu, steps, l);
    PromisedIsAcceptedIff(steps, mtu);
  }

  // ---- Fragmentation and reassembly ----

  lemma LogSnoc(sent: seq<Message>, m: Message, splitId: nat)
    requires WellFormedLog(sent, splitId) && WellFormed(m, |sent|)
    requires IsFragmented(m) ==> m[0].splitId == splitId
    ensures WellFormedLog(sent + [m], splitId + 1)
  {
  }

  /** Reassembly undoes fragmentation: however the frames of a payload and of those before
      it are interleaved, reordered and repeated, what comes out under its order index is
      one frame, with the bytes its frames carry; that is all of the payload exactly when
      it fits one frame, or is shorter than 64 KiB and no multiple of the fragment size. */
  lemma ReassemblyUndoesFragmentation(s: Sender, buff: bytes, sent: seq<Message>, frames: seq<Frame>)
    requires s.queue.mtu >= MIN_MTU && |sent| == s.orderIndex && WellFormedLog(sent, s.splitId)
    requires var all := sent + [s.MessageFor(buff)];
             AllFromLog(frames, all) && forall o :: 0 <= o < |all| ==> Complete(all[o], Elems(frames))
    ensures var released := ReceiveQueues.Run(frames).released;
            && |released| == s.orderIndex + 1
            && released[s.orderIndex].data == Carried(buff, s.queue.mtu)
            && (released[s.orderIndex].data == buff <==> Intact(SendTo(buff, 0), s.queue.mtu))
    ensures forall f :: f in ReceiveQueues.Run(frames).released && f.orderIndex == s.orderIndex ==>
      f == ReceiveQueues.Run(frames).released[s.orderIndex]
  {
    var m := s.MessageFor(buff);
    MessageForIsWellFormed(s, buff);
    LogSnoc(sent, m, s.splitId);
    LastComesOut(frames, sent, m, s.splitId + 1);
    MessageForCarries(s, buff);
    WholePayloadCarriedIff(s, buff);
  }

  lemma LastComesOut(frames: seq<Frame>, sent: seq<Message>, m: Message, limit: nat)
    requires WellFormedLog(sent + [m], limit) && AllFromLog(frames, sent + [m])
    requires forall o :: 0 <= o <= |sent| ==> Complete((sent + [m])[o], Elems(frames))
    ensures var released := ReceiveQueues.Run(frames).released;
            && |released| == |sent| + 1 && released[|sent|].data == Payload(m)
            && (forall f :: f in released && f.orderIndex == |sent| ==> f == released[|sent|])
  {
    var h := ReceiveQueues.Run(frames);
    RunMatches(frames, sent + [m], limit);
    ReleaseIsExact(h.state, h.released, sent + [m], Elems(frames), limit);
    ReleaseIsInOrder(frames);
    assert (sent + [m])[|sent|] == m && WellFormed(m, |sent|);
    ResultData(m, |sent|);
  }

  // ---- Repeated fragments ----

  /** Once the split id of a payload is finished, a repetition of one of its fragments
      completes it again exactly when the payload was sent as a single fragment. */
  lemma RepetitionCompletesAgainIff(s: Sender, buff: bytes, r: ReceiveQueues.RecvState, f: Frame)
    requires s.queue.mtu >= MIN_MTU && !FitsOneFrame(|buff|, s.queue.mtu) && f in s.MessageFor(buff)
    requires r.splits.Tidy() && s.splitId in r.splits.delete
    ensures f.splitId == s.splitId
    ensures Completes(r, f) == [s.splitId] <==> 0 < Cast16(|buff|) <= FragmentMax(s.queue.mtu)
  {
    var m := s.MessageFor(buff);
    MessageForIsWellFormed(s, buff);
    FragmentsAre(s, buff, |m|);
    var i :| 0 <= i < |m| && m[i] == f;
    OneFragmentIff(s, buff);
    LateFragment(r, f);
  }

  /** So in the callers' terms: over every run of an honest sender's frames, each split id
      is completed at most once, unless it was used for a payload of a single fragment. */
  lemma HonestReassemblyIsAtMostOnce(frames: seq<Frame>, sent: seq<Message>, limit: nat, id: nat)
    requires WellFormedLog(sent, limit) && AllFromLog(frames, sent)
    requires forall o :: 0 <= o < |sent| && IsFragmented(sent[o]) && sent[o][0].splitId == id ==> |sent[o]| != 1
    ensures ReceiveQueues.Run(frames).AtMostOnce(id)
  {
    forall f | f in frames && f.split && f.splitId == id
      ensures f.splitCount != 1
    {
      var i :| 0 <= i < |frames| && frames[i] == f;
      assert FromLog(frames[i], sent);
      FragmentPlace(f, sent[f.orderIndex], f.orderIndex);
    }
    ReassemblyIsAtMostOnce(frames, id);
  }

  /** Such a payload exists: 65537 bytes, under an MTU of 1400. Its one fragment, arriving
      twice, completes twice. */
  lemma OneFragmentCompletesTwice(s: Sender, buff: bytes)
    requires s.queue.mtu == 1400 && |buff| == 0x1_0001
    ensures |s.MessageFor(buff)| == 1
    ensures ReceiveQueues.Run([s.MessageFor(buff)[0], s.MessageFor(buff)[0]]).completed == [s.splitId, s.splitId]
  {
    OneFragmentIff(s, buff);
    FragmentsAre(s, buff, 1);
    CompletesTwice(s.MessageFor(buff)[0]);
  }

  // ---- Nothing is lost ----

  /** Every frame is still queued, or the receiver has it. */
  lemma NothingIsDiscardedEarly(mtu: nat, steps: seq<Step>, l: Link, f: Frame)
    requires mtu >= MIN_MTU && Reaches(Initial(mtu), steps, l) && f in l.given
    ensures l.tx.queue.Count(f) > 0 || f in l.arrived
  {
    assert Reachable(l);
    ReachableInv(l);
    NotQueuedHasArrived(l, f);
  }

  lemma NotQueuedHasArrived(l: Link, f: Frame)
    requires Inv(l) && f in l.given
    ensures l.tx.queue.Count(f) > 0 || f in l.arrived
  {
    assert multiset(l.given)[f] == l.tx.queue.Count(f) + CountIn(l.discarded, f);
    if l.tx.queue.Count(f) == 0 {
      var d := CountInFinds(l.discarded, f);
      assert d.sequenceNumber in l.processed && f in l.emitted[d.sequenceNumber].datas;
    }
  }

  lemma {:induction false} CountInFinds(sets: seq<FrameSet>, f: Frame) returns (d: FrameSet)
    requires CountIn(sets, f) > 0
    ensures d in sets && f in d.datas
  {
    if f in sets[0].datas { d := sets[0]; } else { d := CountInFinds(sets[1..], f); }
  }

  ghost predicate Quiescent(q: SendQueue) {
    q.setQueue == [] && q.queue == map[]
  }

  lemma {:induction false} NothingBelow(n: nat, f: Frame)
    ensures CountBelow(map[], n, f) == 0
  {
    if n > 0 { NothingBelow(n - 1, f); }
  }

  ghost predicate NoneEmpty(sent: seq<Message>) {
    forall o :: 0 <= o < |sent| ==> sent[o] != []
  }

  /** With nothing left to send, everything has been delivered up to the first payload
      that has no frames at all; so all of it has, exactly when there is no such payload. */
  lemma QuiescentMeansDelivered(l: Link)
    requires Inv(l) && Quiescent(l.tx.queue)
    ensures |l.delivered| < |l.sent| ==> l.sent[|l.delivered|] == []
    ensures Data(l.delivered) == Payloads(l.sent) <==> NoneEmpty(l.sent)
  {
    ReleaseIsExact(l.rx.received, l.delivered, l.sent, l.arrived, l.tx.splitId);
    forall o | 0 <= o < |l.sent| && l.sent[o] != []
      ensures Complete(l.sent[o], l.arrived)
    {
      QuiescentComplete(l, o);
    }
    AllIsDataIff(l.delivered, l.sent);
  }

  lemma ReachableQuiescent(l: Link)
    requires Reachable(l) && Quiescent(l.tx.queue)
    ensures Data(l.delivered) == Payloads(l.sent) <==> NoneEmpty(l.sent)
  {
    ReachableInv(l);
    QuiescentMeansDelivered(l);
  }

  lemma AllIsDataIff(delivered: seq<Frame>, sent: seq<Message>)
    requires |delivered| <= |sent|
    requires forall o :: 0 <= o < |sent| ==> WellFormed(sent[o], o)
    requires forall o :: 0 <= o < |delivered| ==> sent[o] != [] && delivered[o] == Result(sent[o], o)
    requires |delivered| < |sent| ==> sent[|delivered|] == []
    ensures Data(delivered) == Payloads(sent) <==> NoneEmpty(sent)
  {
    var n := |delivered|;
    DeliveredData(delivered, sent);
    PayloadsPrefix(sent, n);
    PayloadsPrefix(sent[..n], n);
    assert n == |sent| ==> sent[..n] == sent;
  }

  lemma QuiescentComplete(l: Link, o: nat)
    requires Inv(l) && Quiescent(l.tx.queue) && o < |l.sent| && l.sent[o] != []
    ensures Complete(l.sent[o], l.arrived)
  {
    forall i | 0 <= i < |l.sent[o]|
      ensures l.sent[o][i] in l.arrived
    {
      NothingBelow(l.tx.queue.max, l.sent[o][i]);
      NotQueuedHasArrived(l, l.sent[o][i]);
    }
  }

  /** A length for which send_to uses up an order index without sending any frame. */
  ghost predicate Vanishes(step: Step, mtu: nat) {
    step.SendTo? && !FitsOneFrame(|step.buff|, mtu) && Cast16(|step.buff|) == 0
  }

  ghost predicate NoneVanishes(steps: seq<Step>, mtu: nat) {
    forall step :: step in steps ==> !Vanishes(step, mtu)
  }

  lemma VanishingMessage(tx: Sender, buff: bytes, now: nat)
    requires tx.queue.mtu >= MIN_MTU
    ensures tx.MessageFor(buff) == [] <==> Vanishes(SendTo(buff, now), tx.queue.mtu)
  {
  }

  lemma NoneEmptySnoc(sent: seq<Message>, m: Message)
    ensures NoneEmpty(sent + [m]) <==> NoneEmpty(sent) && m != []
  {
    assert (sent + [m])[|sent|] == m;
    assert forall o :: 0 <= o < |sent| ==> (sent + [m])[o] == sent[o];
  }

  lemma StepEmptyIff(l: Link, step: Step)
    requires l.tx.queue.mtu >= MIN_MTU && Safe(l, step)
    ensures NoneEmpty(Next(l, step).sent) <==> NoneEmpty(l.sent) && !Vanishes(step, l.tx.queue.mtu)
  {
    match step
    case SendTo(buff, now) =>
      VanishingMessage(l.tx, buff, now);
      NoneEmptySnoc(l.sent, l.tx.MessageFor(buff));
    case SendSystemPacket(buff, reliability, _) =>
      NoneEmptySnoc(l.sent, [l.tx.WholeFrame(reliability, buff)]);
    case _ =>
  }

  lemma StepFacts(l: Link, step: Step)
    requires Inv(l) && Possible(l, step)
    ensures Safe(l, step) && Inv(Next(l, step)) && Next(l, step).tx.queue.mtu == l.tx.queue.mtu
    ensures NoneEmpty(Next(l, step).sent) <==> NoneEmpty(l.sent) && !Vanishes(step, l.tx.queue.mtu)
  {
    StepKeepsInv(l, step);
    StepKeepsMtu(l, step);
    StepEmptyIff(l, step);
  }

  lemma NoneVanishesFront(steps: seq<Step>, mtu: nat)
    requires steps != []
    ensures NoneVanishes(steps, mtu) <==> !Vanishes(steps[0], mtu) && NoneVanishes(steps[1..], mtu)
  {
    assert steps == [steps[0]] + steps[1..];
  }

  lemma {:induction false} EmptyMessagesIff(l: Link, steps: seq<Step>, l': Link)
    requires Reachable(l) && Reaches(l, steps, l') && l.tx.queue.mtu >= MIN_MTU
    ensures NoneEmpty(l'.sent) <==> NoneEmpty(l.sent) && NoneVanishes(steps, l.tx.queue.mtu)
    decreases |steps|
  {
    if steps != [] {
      NextPromises(l, steps[0]);
      EmptyMessagesIff(Next(l, steps[0]), steps[1..], l');
      NoneVanishesFront(steps, l.tx.queue.mtu);
    }
  }

  /** Quiescence is completeness: once the sending queue is empty, everything sent has been
      delivered, exactly when no call passed a payload of a length that vanishes. */
  lemma QuiescenceIsCompleteIff(mtu: nat, steps: seq<Step>, l: Link)
    requires mtu >= MIN_MTU && Reaches(Initial(mtu), steps, l) && Quiescent(l.tx.queue)
    ensures Data(l.delivered) == Promised(steps, mtu) <==> NoneVanishes(steps, mtu)
  {
    RunFromStart(mtu, steps, l);
    InitialReachable(mtu);
    EmptyMessagesIff(Initial(mtu), steps, l);
    ReachableQuiescent(l);
  }

  lemma {:induction false} SentOnlyGrows(l: Link, steps: seq<Step>, l': Link)
    requires Reaches(l, steps, l')
    ensures l.sent <= l'.sent
    decreases |steps|
  {
    if steps != [] { SentOnlyGrows(Next(l, steps[0]), steps[1..], l'); }
  }

  lemma {:induction false} ReachesSplit(l: Link, a: seq<Step>, b: seq<Step>, r: Link) returns (m: Link)
    requires Reaches(l, a + b, r)
    ensures Reaches(l, a, m) && Reaches(m, b, r)
    decreases |a|
  {
    if a == [] {
      assert a + b == b;
      m := l;
    } else {
      assert (a + b)[1..] == a[1..] + b;
      m := ReachesSplit(Next(l, a[0]), a[1..], b, r);
    }
  }

  lemma EmptyPayloadBlocks(l: Link, o: nat)
    requires Reachable(l) && o < |l.sent| && l.sent[o] == []
    ensures |l.delivered| <= o
  {
    ReachableInv(l);
    ReleaseIsExact(l.rx.received, l.delivered, l.sent, l.arrived, l.tx.splitId);
    assert !Complete(l.sent[o], l.arrived);
  }

  lemma VanishingStep(m: Link, buff: bytes, now: nat, n: Link)
    requires Reaches(m, [SendTo(buff, now)], n) && Vanishes(SendTo(buff, now), m.tx.queue.mtu)
    ensures n.sent == m.sent + [[]]
  {
    assert [SendTo(buff, now)][1..] == [];
    VanishingMessage(m.tx, buff, now);
  }

  /** A payload that vanishes holds back everything sent after it, for good: however the
      run goes on, no more is released than was sent before the payload. */
  lemma VanishedPayloadBlocks(mtu: nat, before: seq<Step>, buff: bytes, now: nat, after: seq<Step>, l: Link)
    requires mtu >= MIN_MTU && Reaches(Initial(mtu), before + ([SendTo(buff, now)] + after), l)
    requires Vanishes(SendTo(buff, now), mtu)
    ensures |l.delivered| <= |Promised(before, mtu)|
  {
    var m := ReachesSplit(Initial(mtu), before, [SendTo(buff, now)] + after, l);
    var n := ReachesSplit(m, [SendTo(buff, now)], after, l);
    RunFromStart(mtu, before, m);
    PayloadsPrefix(m.sent, |m.sent|);
    VanishingStep(m, buff, now, n);
    SentOnlyGrows(n, after, l);
    RunFromStart(mtu, before + ([SendTo(buff, now)] + after), l);
    EmptyPayloadBlocks(l, |m.sent|);
  }

  /** Such a payload exists: 65536 bytes, under an MTU of 1400. */
  lemma SixtyFourKilobytesVanish(buff: bytes, now: nat)
    requires |buff| == 0x1_0000
    ensures Vanishes(SendTo(buff, now), 1400)
    ensures Next(Initial(1400), SendTo(buff, now)).sent == [[]]
  {
    VanishingMessage(Initial(1400).tx, buff, now);
  }

  // ---- Numbers ----

  /** Over every run the sequence numbers put on the network are 0, 1, 2, ..., in that
      order, and a number stands for one content only. */
  lemma NumbersAreConsecutiveAndFixed(mtu: nat, steps: seq<Step>, l: Link)
    requires mtu >= MIN_MTU && Reaches(Initial(mtu), steps, l)
    ensures |l.emitted| == l.tx.queue.sendMin
    ensures forall i :: 0 <= i < |l.emitted| ==> l.emitted[i].sequenceNumber == i
    ensures forall d, e :: d in l.datagrams && e in l.datagrams && d.sequenceNumber == e.sequenceNumber ==> d == e
    ensures forall k :: k in l.tx.queue.queue && k < l.tx.queue.sendMin ==> l.tx.queue.queue[k] == l.emitted[k]
  {
    assert Reachable(l);
    ReachableInv(l);
  }

  /** The window of numbers due for emission stays whole, whatever feedback arrives from
      a peer that runs this code, so no lookup of any possible step misses. */
  lemma WindowStaysWhole(mtu: nat, steps: seq<Step>, l: Link, step: Step)
    requires mtu >= MIN_MTU && Reaches(Initial(mtu), steps, l) && Possible(l, step)
    ensures l.tx.queue.Window() && Safe(l, step)
    ensures forall c, s: nat :: c in l.controls && c.Covers(s) ==> s < l.tx.queue.sendMin
  {
    assert Reachable(l);
    ReachableInv(l);
    StepKeepsInv(l, step);
  }

  /** Conservation: at every point of every run each frame is queued or discarded exactly
      as often as it was handed over. */
  lemma FramesAreConserved(mtu: nat, steps: seq<Step>, l: Link, f: Frame)
    requires mtu >= MIN_MTU && Reaches(Initial(mtu), steps, l)
    ensures multiset(l.given)[f] == l.tx.queue.Count(f) + CountIn(l.discarded, f)
    ensures forall d :: d in l.discarded ==> d.sequenceNumber in l.processed && d in l.emitted
  {
    assert Reachable(l);
    ReachableInv(l);
  }
}

/** How large a datagram can get. */
module Sizes {
  import opened Frames
  import opened SendQueues
  import opened AckQueues
  import opened Sessions
  import opened Links
  import opened FrameCodec

  /** The header of a frame set that carries a fragment, and of one that does not. */
  function HeaderFor(split: bool): byte {
    if split then DATAGRAM_FLAG + NEEDS_B_AND_AS_FLAG + CONTINUOUS_SEND_FLAG else DATAGRAM_FLAG + NEEDS_B_AND_AS_FLAG
  }

  /** A frame set is marked as what it is, and holds one frame, or whole frames within the
      batching budget. */
  ghost predicate Sized(s: FrameSet, mtu: nat) {
    && s.header == HeaderFor(|s.datas| == 1 && s.datas[0].split)
    && (|s.datas| == 1 || (TotalLength(s.datas) < mtu - 42 && forall f :: f in s.datas ==> !f.split))
  }

  ghost predicate QueueSized(q: SendQueue) {
    forall k :: k in q.queue ==> Sized(q.queue[k], q.mtu)
  }

  ghost predicate EmittedSized(emitted: seq<FrameSet>, mtu: nat) {
    forall i :: 0 <= i < |emitted| ==> Sized(emitted[i], mtu)
  }

  lemma {:induction false} AddAllSized(q: SendQueue, frames: seq<Frame>, now: nat)
    requires QueueSized(q)
    ensures QueueSized(q.AddAll(frames, now))
  {
    if frames != [] { AddAllSized(q, frames[..|frames| - 1], now); }
  }

  lemma {:induction false} RenumberAllSized(q: SendQueue, ks: seq<nat>, now: nat)
    requires QueueSized(q)
    ensures QueueSized(q.RenumberAll(ks, now)) && q.RenumberAll(ks, now).mtu == q.mtu
    decreases |ks|
  {
    if ks != [] {
      RenumberAllSized(if ks[0] in q.queue then q.Renumber(ks[0], now) else q, ks[1..], now);
    }
  }

  lemma PreparedSized(q: SendQueue, now: nat, order: seq<nat>)
    requires QueueSized(q) && q.Valid()
    ensures QueueSized(q.Prepared(now, order)) && q.Prepared(now, order).mtu == q.mtu
  {
    assert QueueSized(q.CloseBatch(now));
    assert [] + order == order;
    RenumberAllSized(q.Tick(now, order), order, now);
  }

  lemma EmissionSized(p: SendQueue)
    requires QueueSized(p) && p.Valid()
    ensures EmittedSized(p.Emission(), p.mtu)
  {
  }

  ghost predicate SizeInv(l: Link, mtu: nat) {
    l.tx.queue.mtu == mtu && QueueSized(l.tx.queue) && EmittedSized(l.emitted, mtu)
  }

  lemma FlushKeepsSizes(l: Link, mtu: nat, now: nat, order: seq<nat>)
    requires Inv(l) && SizeInv(l, mtu) && Possible(l, Flush(now, order)) && Safe(l, Flush(now, order))
    ensures SizeInv(Next(l, Flush(now, order)), mtu)
  {
    PreparedIsValid(l.tx.queue, now, order);
    PreparedSized(l.tx.queue, now, order);
    EmissionSized(l.tx.queue.Prepared(now, order));
  }

  lemma ControlKeepsSizes(l: Link, mtu: nat, c: Control, now: nat)
    requires Inv(l) && SizeInv(l, mtu) && c in l.controls
    ensures SizeInv(Next(l, DeliverControl(c, now)), mtu)
  {
    var ks := Numbers(c.range);
    if c.AckOf? {
      ReceivedAllSized(l.tx.queue, ks);
    } else {
      ResendAllIsRenumberAll(l.tx.queue, ks, now);
      RenumberAllSized(l.tx.queue, ks, now);
    }
  }

  lemma {:induction false} ReceivedAllSized(q: SendQueue, ks: seq<nat>)
    requires QueueSized(q)
    ensures QueueSized(q.ReceivedAll(ks)) && q.ReceivedAll(ks).mtu == q.mtu
    decreases |ks|
  {
    if ks != [] { ReceivedAllSized(q.Received(ks[0]), ks[1..]); }
  }

  lemma StepKeepsSizes(l: Link, step: Step, mtu: nat)
    requires Inv(l) && SizeInv(l, mtu) && Possible(l, step) && Safe(l, step)
    ensures SizeInv(Next(l, step), mtu)
  {
    match step
    case SendTo(buff, now) =>
      AddAllSized(l.tx.queue, l.tx.MessageFor(buff), now);
      AddAllKeeps(l.tx.queue, l.tx.MessageFor(buff), now);
    case SendSystemPacket(buff, reliability, now) =>
      var f := l.tx.WholeFrame(reliability, buff);
      AddAllOne(l.tx.queue, f, now);
      AddAllSized(l.tx.queue, [f], now);
      AddAllKeeps(l.tx.queue, [f], now);
    case Flush(now, order) => FlushKeepsSizes(l, mtu, now, order);
    case DeliverControl(c, now) => ControlKeepsSizes(l, mtu, c, now);
    case _ =>
  }

  /** Frames of `SendTo`: a fragment takes at most the MTU less 41, a whole payload at most
      the MTU less 37. */
  lemma SendToFrameSizes(s: Sender, buff: bytes)
    requires s.queue.mtu >= MIN_MTU
    ensures forall f :: f in s.MessageFor(buff) ==>
      f.Length() <= (if f.split then s.queue.mtu - 41 else s.queue.mtu - 37) && f.reliability == ReliableOrdered
  {
    if !FitsOneFrame(|buff|, s.queue.mtu) {
      FragmentSizes(s, buff, |s.MessageFor(buff)|);
    }
  }

  lemma {:induction false} FragmentSizes(s: Sender, buff: bytes, n: nat)
    requires s.queue.mtu >= MIN_MTU && n <= FragmentCount(Cast16(|buff|), FragmentMax(s.queue.mtu))
    ensures forall f :: f in s.Fragments(buff, n) ==>
      f.Length() <= s.queue.mtu - 41 && f.split && f.reliability == ReliableOrdered
  {
    if n > 0 {
      FragmentSizes(s, buff, n - 1);
      LastFragment(s, buff, n);
    }
  }

  lemma LastFragment(s: Sender, buff: bytes, n: nat)
    requires s.queue.mtu >= MIN_MTU && 0 < n <= FragmentCount(Cast16(|buff|), FragmentMax(s.queue.mtu))
    ensures var f := s.Fragments(buff, n)[n - 1];
            && s.Fragments(buff, n) == s.Fragments(buff, n - 1) + [f]
            && f.Length() <= s.queue.mtu - 41 && f.split && f.reliability == ReliableOrdered
  {
    FragmentsFit(|buff|, FragmentMax(s.queue.mtu), n - 1);
  }

  /** Within the budgets of `SendTo`. */
  ghost predicate FrameFits(f: Frame, mtu: nat) {
    f.Length() <= if f.split then mtu - 41 else mtu - 37
  }

  ghost predicate FramesFit(frames: seq<Frame>, mtu: nat) {
    forall f :: f in frames ==> FrameFits(f, mtu)
  }

  /** A packet of the protocol itself is not cut up, so it must fit on its own. */
  ghost predicate SmallSystemPacket(step: Step, mtu: nat) {
    step.SendSystemPacket? ==> FrameFits(NewFrame(step.reliability, step.buff), mtu)
  }

  lemma {:induction false} RunKeepsSizes(l: Link, steps: seq<Step>, l': Link, mtu: nat)
    requires Inv(l) && SizeInv(l, mtu) && Reaches(l, steps, l')
    ensures Inv(l') && SizeInv(l', mtu)
    decreases |steps|
  {
    if steps != [] {
      StepKeepsInv(l, steps[0]);
      StepKeepsSizes(l, steps[0], mtu);
      RunKeepsSizes(Next(l, steps[0]), steps[1..], l', mtu);
    }
  }

  lemma StepFramesFit(l: Link, step: Step)
    requires Safe(l, step) && l.tx.queue.mtu >= MIN_MTU
    requires FramesFit(l.given, l.tx.queue.mtu) && SmallSystemPacket(step, l.tx.queue.mtu)
    ensures FramesFit(Next(l, step).given, l.tx.queue.mtu)
  {
    if step.SendTo? { SendToFrameSizes(l.tx, step.buff); }
  }

  lemma {:induction false} RunFramesFit(l: Link, steps: seq<Step>, l': Link, mtu: nat)
    requires mtu >= MIN_MTU && Inv(l) && SizeInv(l, mtu) && Reaches(l, steps, l')
    requires FramesFit(l.given, mtu) && forall step :: step in steps ==> SmallSystemPacket(step, mtu)
    ensures FramesFit(l'.given, mtu)
    decreases |steps|
  {
    if steps != [] {
      StepKeepsInv(l, steps[0]);
      StepKeepsSizes(l, steps[0], mtu);
      assert steps[0] in steps && forall step :: step in steps[1..] ==> step in steps;
      StepFramesFit(l, steps[0]);
      RunFramesFit(Next(l, steps[0]), steps[1..], l', mtu);
    }
  }

  lemma DatagramIsSized(l: Link, mtu: nat, d: FrameSet)
    requires Inv(l) && SizeInv(l, mtu) && d in l.datagrams
    ensures Sized(d, mtu)
  {
  }

  lemma SizeOnWire(d: FrameSet, mtu: nat)
    requires mtu >= MIN_MTU && SetEncodable(d) && Sized(d, mtu) && FramesFit(d.datas, mtu)
    ensures |EncodeFrameSet(d)| <= mtu - 33
    ensures |d.datas| != 1 ==> |EncodeFrameSet(d)| <= mtu - 39
    ensures (exists f :: f in d.datas && f.split) ==> |EncodeFrameSet(d)| <= mtu - 37
  {
    FrameSetLength(d);
    if |d.datas| == 1 {
      assert TotalLength(d.datas) == TotalLength(d.datas[..0]) + d.datas[0].Length();
      assert d.datas[0] in d.datas;
    }
  }

  /** Over every run the datagrams stay within the MTU: 33 bytes below it in any case, 37
      with a fragment, 39 with several frames. */
  lemma DatagramsFitTheMtu(mtu: nat, steps: seq<Step>, l: Link, d: FrameSet)
    requires mtu >= MIN_MTU && Reaches(Initial(mtu), steps, l) && d in l.datagrams && SetEncodable(d)
    requires forall step :: step in steps ==> SmallSystemPacket(step, mtu)
    ensures |EncodeFrameSet(d)| <= mtu - 33
    ensures |d.datas| != 1 ==> |EncodeFrameSet(d)| <= mtu - 39
    ensures (exists f :: f in d.datas && f.split) ==> |EncodeFrameSet(d)| <= mtu - 37
  {
    InitialInv(mtu);
    RunKeepsSizes(Initial(mtu), steps, l, mtu);
    RunFramesFit(Initial(mtu), steps, l, mtu);
    DatagramIsSized(l, mtu, d);
    DatagramIsFromLog(l, d);
    SizeOnWire(d, mtu);
  }
}

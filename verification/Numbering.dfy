/** How the frames that a sender hands to its queue are numbered and marked. */
module Numbering {
  import opened Frames
  import opened OrderedDelivery
  import opened Sessions
  import opened Links
  import opened Guarantees
  import opened FrameCodec
  import opened Sizes

  ghost function ReliableOnes(frames: seq<Frame>): seq<Frame> {
    if frames == [] then []
    else
      var last := frames[|frames| - 1];
      ReliableOnes(frames[..|frames| - 1]) + if last.reliability.IsReliable() then [last] else []
  }

  /** The reliable frames carry the message indices 0, 1, 2, ... up to `next`. */
  ghost predicate Numbered(given: seq<Frame>, next: nat) {
    && |ReliableOnes(given)| == next
    && forall i :: 0 <= i < |ReliableOnes(given)| ==> ReliableOnes(given)[i].messageIndex == i
  }

  lemma NumberedSnoc(given: seq<Frame>, f: Frame, next: nat)
    requires Numbered(given, next) && (f.reliability.IsReliable() ==> f.messageIndex == next)
    ensures Numbered(given + [f], next + if f.reliability.IsReliable() then 1 else 0)
  {
    assert (given + [f])[..|given|] == given;
  }

  lemma {:induction false} NumberedJoin(given: seq<Frame>, m: Message, next: nat)
    requires Numbered(given, next)
    requires forall i :: 0 <= i < |m| ==> m[i].reliability.IsReliable() && m[i].messageIndex == next + i
    ensures Numbered(given + m, next + |m|)
  {
    if m == [] {
      assert given + m == given;
    } else {
      var front, last := m[..|m| - 1], m[|m| - 1];
      NumberedJoin(given, front, next);
      NumberedSnoc(given + front, last, next + |front|);
      assert given + m == given + front + [last];
    }
  }

  lemma MessageNumbers(s: Sender, buff: bytes)
    requires s.queue.mtu >= MIN_MTU
    ensures forall i :: 0 <= i < |s.MessageFor(buff)| ==>
      s.MessageFor(buff)[i].reliability.IsReliable() && s.MessageFor(buff)[i].messageIndex == s.messageIndex + i
  {
    if !FitsOneFrame(|buff|, s.queue.mtu) { FragmentsAre(s, buff, |s.MessageFor(buff)|); }
  }

  lemma StepNumbers(l: Link, step: Step)
    requires Safe(l, step) && Numbered(l.given, l.tx.messageIndex)
    ensures Numbered(Next(l, step).given, Next(l, step).tx.messageIndex)
  {
    match step
    case SendTo(buff, _) =>
      MessageNumbers(l.tx, buff);
      NumberedJoin(l.given, l.tx.MessageFor(buff), l.tx.messageIndex);
    case SendSystemPacket(buff, reliability, _) =>
      NumberedSnoc(l.given, l.tx.WholeFrame(reliability, buff), l.tx.messageIndex);
    case _ =>
  }

  lemma {:induction false} RunNumbers(l: Link, steps: seq<Step>, l': Link)
    requires Numbered(l.given, l.tx.messageIndex) && Reaches(l, steps, l')
    ensures Numbered(l'.given, l'.tx.messageIndex)
    decreases |steps|
  {
    if steps != [] {
      StepNumbers(l, steps[0]);
      RunNumbers(Next(l, steps[0]), steps[1..], l');
    }
  }

  /** Over every run the reliable frames, fragments among them, carry the message indices
      0, 1, 2, ... in the order in which they were handed over, so no index is used twice. */
  lemma MessageIndexesAreConsecutive(mtu: nat, steps: seq<Step>, l: Link)
    requires Reaches(Initial(mtu), steps, l)
    ensures |ReliableOnes(l.given)| == l.tx.messageIndex
    ensures forall i :: 0 <= i < |ReliableOnes(l.given)| ==> ReliableOnes(l.given)[i].messageIndex == i
  {
    RunNumbers(Initial(mtu), steps, l);
  }

  /** How many payloads of a run are too long for one frame. */
  ghost function LongPayloads(steps: seq<Step>, mtu: nat): nat {
    if steps == [] then 0
    else (if steps[0].SendTo? && |steps[0].buff| >= mtu - 46 then 1 else 0) + LongPayloads(steps[1..], mtu)
  }

  lemma {:induction false} RunSplitIds(l: Link, steps: seq<Step>, l': Link, mtu: nat)
    requires Reachable(l) && l.tx.queue.mtu == mtu && Reaches(l, steps, l')
    ensures l'.tx.splitId == l.tx.splitId + LongPayloads(steps, mtu)
    decreases |steps|
  {
    if steps != [] {
      NextPromises(l, steps[0]);
      RunSplitIds(Next(l, steps[0]), steps[1..], l', mtu);
    }
  }

  /** Over every run the next split id is the number of payloads that were too long for one
      frame: each of them takes up one id, and nothing else does. */
  lemma SplitIdsAreConsecutive(mtu: nat, steps: seq<Step>, l: Link)
    requires mtu >= 62 && Reaches(Initial(mtu), steps, l)
    ensures l.tx.splitId == LongPayloads(steps, mtu)
  {
    InitialReachable(mtu);
    RunSplitIds(Initial(mtu), steps, l, mtu);
  }

  // ---- Fields on the wire ----

  /** Where the fields of a frame come from: its indices are below the sender's counters,
      and the rest fits 16 bits. */
  ghost predicate FieldsOf(f: Frame, s: Sender) {
    && (f.reliability.IsReliable() ==> f.messageIndex < s.messageIndex)
    && (f.reliability.IsSequencedOrOrdered() ==> f.orderIndex < s.orderIndex)
    && f.sequenceIndex == 0
    && f.splitCount <= 0x1_0000 && f.splitIndex <= 0x1_0000 && f.splitId < 0x1_0000
  }

  ghost predicate FieldsInv(given: seq<Frame>, s: Sender) {
    s.splitId < 0x1_0000 && forall f :: f in given ==> FieldsOf(f, s)
  }

  lemma FragmentFields(s: Sender, buff: bytes, i: nat, next: Sender)
    requires s.queue.mtu >= MIN_MTU && !FitsOneFrame(|buff|, s.queue.mtu) && i < |s.MessageFor(buff)|
    requires s.splitId < 0x1_0000
    requires next.messageIndex == s.messageIndex + |s.MessageFor(buff)| && next.orderIndex == s.orderIndex + 1
    ensures FieldsOf(s.MessageFor(buff)[i], next)
  {
    FragmentsAre(s, buff, |s.MessageFor(buff)|);
  }

  lemma SendToKeepsFields(l: Link, buff: bytes, now: nat)
    requires Possible(l, SendTo(buff, now)) && Safe(l, SendTo(buff, now)) && FieldsInv(l.given, l.tx)
    ensures FieldsInv(Next(l, SendTo(buff, now)).given, Next(l, SendTo(buff, now)).tx)
  {
    var m, next := l.tx.MessageFor(buff), l.tx.SendTo(buff, now);
    if !FitsOneFrame(|buff|, l.tx.queue.mtu) {
      forall f | f in m
        ensures FieldsOf(f, next)
      {
        var i :| 0 <= i < |m| && m[i] == f;
        FragmentFields(l.tx, buff, i, next);
      }
    }
  }

  lemma StepKeepsFields(l: Link, step: Step)
    requires Possible(l, step) && Safe(l, step) && FieldsInv(l.given, l.tx)
    ensures FieldsInv(Next(l, step).given, Next(l, step).tx)
  {
    if step.SendTo? { SendToKeepsFields(l, step.buff, step.now); }
  }

  /** While the counters fit 24 bits, so does everything that a frame carries of them. */
  lemma FieldsAreEncodable(f: Frame, s: Sender)
    requires FieldsOf(f, s) && s.messageIndex <= 0x100_0000 && s.orderIndex <= 0x100_0000
    ensures Encodable(f)
  {
  }

  // ---- Marks ----

  lemma MarkIsRight(d: FrameSet, mtu: nat)
    requires Sized(d, mtu)
    ensures d.header / CONTINUOUS_SEND_FLAG % 2 == 1 <==> exists f :: f in d.datas && f.split
    ensures (exists f :: f in d.datas && f.split) ==> |d.datas| == 1
  {
    if |d.datas| == 1 { assert d.datas[0] in d.datas; }
  }

  /** Over every run a datagram is marked as carrying a fragment exactly when it does, and
      a fragment travels alone. */
  lemma DatagramsAreMarked(mtu: nat, steps: seq<Step>, l: Link, d: FrameSet)
    requires mtu >= MIN_MTU && Reaches(Initial(mtu), steps, l) && d in l.datagrams
    ensures d.header / CONTINUOUS_SEND_FLAG % 2 == 1 <==> exists f :: f in d.datas && f.split
    ensures (exists f :: f in d.datas && f.split) ==> |d.datas| == 1
  {
    InitialInv(mtu);
    RunKeepsSizes(Initial(mtu), steps, l, mtu);
    DatagramIsSized(l, mtu, d);
    MarkIsRight(d, mtu);
  }
}

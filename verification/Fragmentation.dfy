/** How a payload is cut into frames, in numbers. */
module Fragmentation {
  import opened Frames
  import opened Sessions

  /** Exactly the payloads that leave room for 46 bytes under the MTU go out whole. */
  lemma WholeIff(s: Sender, buff: bytes)
    requires s.queue.mtu >= 62
    ensures |s.MessageFor(buff)| == 1 && !s.MessageFor(buff)[0].split <==> |buff| < s.queue.mtu - 46
  {
    if |buff| >= s.queue.mtu - 46 { FragmentsAre(s, buff, |s.MessageFor(buff)|); }
  }

  /** And then as one ordered frame. */
  lemma WholeFrameIs(s: Sender, buff: bytes)
    requires 62 <= s.queue.mtu && |buff| < s.queue.mtu - 46
    ensures s.MessageFor(buff) == [Frame(ReliableOrdered, s.messageIndex, 0, s.orderIndex, false, 0, 0, 0, buff)]
  {
  }

  lemma CountIs(len: nat, max: nat)
    requires max > 0
    ensures var n := FragmentCount(len, max);
            if len == 0 then n == 0 else (n - 1) * max < len <= n * max
  {
    var q := len / max;
    assert len == q * max + len % max;
    assert (q + 1) * max == q * max + max && (q - 1) * max == q * max - max;
  }

  /** Any other payload is cut into just as many fragments as its length, cast to 16 bits,
      needs when a fragment takes 61 bytes less than the MTU; and those are all split frames. */
  lemma FragmentNumberIs(s: Sender, buff: bytes)
    requires 62 <= s.queue.mtu && s.queue.mtu - 46 <= |buff|
    ensures var n, len := |s.MessageFor(buff)|, |buff| % 0x1_0000;
            if len == 0 then n == 0 else (n - 1) * (s.queue.mtu - 61) < len <= n * (s.queue.mtu - 61)
    ensures forall f :: f in s.MessageFor(buff) ==> f.split
  {
    CountIs(|buff| % 0x1_0000, s.queue.mtu - 61);
    FragmentsAre(s, buff, |s.MessageFor(buff)|);
  }

  /** The bytes of fragment `i` of `n`. */
  lemma {:induction false} FragmentDataIs(s: Sender, buff: bytes, n: nat, i: nat)
    requires s.queue.mtu >= MIN_MTU && i < n <= FragmentCount(Cast16(|buff|), FragmentMax(s.queue.mtu))
    ensures var len, max := Cast16(|buff|), FragmentMax(s.queue.mtu);
            var end := i * max + FragmentSize(i, FragmentCount(len, max), len, max);
            end <= |buff| && s.Fragments(buff, n)[i].data == buff[i * max..end]
  {
    FragmentsFit(|buff|, FragmentMax(s.queue.mtu), i);
    if i < n - 1 { FragmentDataIs(s, buff, n - 1, i); }
  }

  /** The fragments lie end to end: each takes as many bytes as fit it, from where the one
      before ended, but the last takes only what its length leaves over as a remainder. All
      carry the same order index, split id and number of fragments, and count themselves. */
  lemma FragmentIs(s: Sender, buff: bytes, i: nat)
    requires 62 <= s.queue.mtu && s.queue.mtu - 46 <= |buff| && i < |s.MessageFor(buff)|
    ensures var n, max := |s.MessageFor(buff)|, s.queue.mtu - 61;
            var end := i * max + if i < n - 1 then max else |buff| % 0x1_0000 % max;
            && end <= |buff|
            && s.MessageFor(buff)[i] ==
                 Frame(ReliableOrdered, s.messageIndex + i, 0, s.orderIndex, true, n, i, s.splitId, buff[i * max..end])
  {
    var n := |s.MessageFor(buff)|;
    FragmentsAre(s, buff, n);
    FragmentDataIs(s, buff, n, i);
  }

  /** A split id is used up exactly by the payloads that are split. */
  lemma SplitIdStaysIff(s: Sender, buff: bytes, now: nat)
    requires s.queue.mtu >= 62
    ensures s.SendTo(buff, now).splitId == s.splitId <==> |buff| < s.queue.mtu - 46
    ensures s.SendTo(buff, now).splitId <= s.splitId + 1
  {
  }

  /** A packet of the protocol goes out as one frame with its bytes, whatever its
      reliability, and takes the next message index if it is reliable and the next order
      index if it is ordered. */
  lemma SystemFrameIs(s: Sender, reliability: Reliability, buff: bytes)
    ensures s.WholeFrame(reliability, buff) ==
      match reliability
      case Unreliable => Frame(reliability, 0, 0, 0, false, 0, 0, 0, buff)
      case Reliable => Frame(reliability, s.messageIndex, 0, 0, false, 0, 0, 0, buff)
      case UnreliableSequenced => Frame(reliability, 0, 0, s.orderIndex, false, 0, 0, 0, buff)
      case _ => Frame(reliability, s.messageIndex, 0, s.orderIndex, false, 0, 0, 0, buff)
  {
  }
}

/** The values that travel between two sessions: frames and the frame sets that carry them. */
module Frames {
  type byte = x: int | 0 <= x < 256
  type bytes = seq<byte>

  datatype Reliability = Unreliable | UnreliableSequenced | Reliable | ReliableOrdered | ReliableSequenced {
    predicate IsReliable() {
      Reliable? || ReliableOrdered? || ReliableSequenced?
    }

    predicate IsSequenced() {
      UnreliableSequenced? || ReliableSequenced?
    }

    predicate IsSequencedOrOrdered() {
      UnreliableSequenced? || ReliableOrdered? || ReliableSequenced?
    }
  }

  /** The integer fields are unbounded here; the widths they have in memory and on the
      wire are the subject of module FrameCodec. */
  datatype Frame = Frame(
    reliability: Reliability,
    messageIndex: nat,
    sequenceIndex: nat,
    orderIndex: nat,
    split: bool,
    splitCount: nat,
    splitIndex: nat,
    splitId: nat,
    data: bytes)
  {
    /** The length in bytes that the batching code budgets for this frame. */
    function Length(): nat {
      1 + 2
      + (if reliability.IsReliable() then 3 else 0)
      + (if reliability.IsSequenced() then 3 else 0)
      + (if reliability.IsSequencedOrOrdered() then 4 else 0)
      + (if split then 10 else 0)
      + |data|
    }
  }

  /** A frame with every index zero, as a caller first builds it. */
  function NewFrame(reliability: Reliability, data: bytes): Frame {
    Frame(reliability, 0, 0, 0, false, 0, 0, 0, data)
  }

  datatype FrameSet = FrameSet(header: byte, sequenceNumber: nat, datas: seq<Frame>)

  const DATAGRAM_FLAG: byte := 0x80
  const ACK_FLAG: byte := 0x40
  const NACK_FLAG: byte := 0x20
  const NEEDS_B_AND_AS_FLAG: byte := 0x4
  const CONTINUOUS_SEND_FLAG: byte := 0x8

  /** The lengths of a list of frames, added up. */
  function TotalLength(frames: seq<Frame>): nat {
    if frames == [] then 0 else TotalLength(frames[..|frames| - 1]) + frames[|frames| - 1].Length()
  }

  lemma TotalLengthSnoc(frames: seq<Frame>, f: Frame)
    ensures TotalLength(frames + [f]) == TotalLength(frames) + f.Length()
  {
    assert (frames + [f])[..|frames|] == frames;
  }

  ghost function Elems<T>(s: seq<T>): set<T> {
    set x | x in s
  }

  lemma ElemsJoin<T>(a: seq<T>, b: seq<T>)
    ensures Elems(a + b) == Elems(a) + Elems(b)
  {
  }

  lemma Regrouped<T>(a: seq<T>, b: seq<T>, c: seq<T>)
    ensures a + b + c == a + (b + c)
  {
  }

  lemma JoinIs<T>(c: seq<T>, a: seq<T>, b: seq<T>)
    requires |c| == |a| + |b|
    requires forall i :: 0 <= i < |a| ==> c[i] == a[i]
    requires forall i :: 0 <= i < |b| ==> c[|a| + i] == b[i]
    ensures c == a + b
  {
    forall i | |a| <= i < |c|
      ensures c[i] == (a + b)[i]
    {
      assert c[|a| + (i - |a|)] == b[i - |a|];
    }
  }

  /** `order` lists the elements of `s`, each once: one way a hash table may be walked. */
  ghost predicate Enumerates<T(!new)>(order: seq<T>, s: set<T>) {
    && (forall x :: x in order <==> x in s)
    && (forall i, j :: 0 <= i < j < |order| ==> order[i] != order[j])
  }

  lemma EnumeratesFront<T(!new)>(x: T, rest: seq<T>, s: set<T>)
    requires Enumerates(rest, s) && x !in s
    ensures Enumerates([x] + rest, {x} + s)
  {
  }

  lemma {:induction false} EnumeratesSize<T(!new)>(order: seq<T>, s: set<T>)
    requires Enumerates(order, s)
    ensures |order| == |s|
  {
    if order == [] {
      assert s == {};
    } else {
      var last, front := order[|order| - 1], order[..|order| - 1];
      assert last in order && order == front + [last];
      EnumeratesSize(front, s - {last});
    }
  }
}

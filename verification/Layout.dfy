/** Where each field of a frame, a frame set, an ACK and a NACK stands on the wire, byte by
    byte. */
module Layouts {
  import opened Frames
  import opened Wire
  import opened FrameCodec
  import opened AckQueues
  import opened AckCodec

  /** Two bytes, high byte first. */
  predicate Short(buf: bytes, i: nat, n: nat) {
    i + 2 <= |buf| && n == buf[i] as int * 256 + buf[i + 1] as int
  }

  /** Three bytes, low byte first. */
  predicate Triad(buf: bytes, i: nat, n: nat) {
    i + 3 <= |buf| && n == buf[i] as int + buf[i + 1] as int * 256 + buf[i + 2] as int * 65536
  }

  /** Four bytes, high byte first. */
  predicate Long(buf: bytes, i: nat, n: nat) {
    i + 4 <= |buf|
    && n == buf[i] as int * 16777216 + buf[i + 1] as int * 65536 + buf[i + 2] as int * 256 + buf[i + 3] as int
  }

  function CodeOf(r: Reliability): nat {
    match r
    case Unreliable => 0
    case UnreliableSequenced => 1
    case Reliable => 2
    case ReliableOrdered => 3
    case ReliableSequenced => 4
  }

  predicate HeaderAt(buf: bytes, pos: nat, r: Reliability, split: bool) {
    pos < |buf| && buf[pos] / 32 == CodeOf(r) && (buf[pos] / 16 % 2 == 1 <==> split)
  }

  /** The indices that a frame carries, from position `i` on. */
  predicate IndexesAt(buf: bytes, i: nat, r: Reliability, x: Indexes) {
    match r
    case Unreliable => true
    case UnreliableSequenced => Triad(buf, i, x.sequence) && Triad(buf, i + 3, x.order)
    case Reliable => Triad(buf, i, x.message)
    case ReliableOrdered => Triad(buf, i, x.message) && Triad(buf, i + 3, x.order)
    case ReliableSequenced => Triad(buf, i, x.message) && Triad(buf, i + 3, x.sequence) && Triad(buf, i + 6, x.order)
  }

  /** How many bytes they take, with the one that follows an order index. */
  function IndexSize(r: Reliability): nat {
    match r
    case Unreliable => 0
    case UnreliableSequenced => 7
    case Reliable => 3
    case ReliableOrdered => 7
    case ReliableSequenced => 10
  }

  /** The last byte of the indices, which is not looked at again, may be missing. */
  function IndexNeeds(r: Reliability): nat {
    match r
    case Unreliable => 0
    case UnreliableSequenced => 6
    case Reliable => 3
    case ReliableOrdered => 6
    case ReliableSequenced => 9
  }

  predicate SplitAt(buf: bytes, i: nat, x: SplitFields) {
    Long(buf, i, x.count) && Short(buf, i + 4, x.id) && Long(buf, i + 6, x.index)
  }

  /** How far the data of a frame is from its first byte. */
  function DataOffset(r: Reliability, split: bool): nat {
    3 + IndexSize(r) + if split then 10 else 0
  }

  /** Everything in front of the data, but the length field. */
  predicate FieldsAt(buf: bytes, pos: nat, f: Frame) {
    && HeaderAt(buf, pos, f.reliability, f.split)
    && IndexesAt(buf, pos + 3, f.reliability, Indexes(f.messageIndex, f.sequenceIndex, f.orderIndex))
    && (f.split ==>
          SplitAt(buf, pos + 3 + IndexSize(f.reliability), SplitFields(f.splitCount, f.splitId, f.splitIndex)))
  }

  // ---- Encoding ----

  lemma Is16(buf: bytes, pos: nat, n: nat)
    requires n < 65536 && At(buf, pos, U16Big(n))
    ensures Short(buf, pos, n)
  {
    assert buf[pos..pos + 2][0] == buf[pos] && buf[pos..pos + 2][1] == buf[pos + 1];
  }

  lemma Is24(buf: bytes, pos: nat, n: nat)
    requires n < 0x100_0000 && At(buf, pos, U24Little(n))
    ensures Triad(buf, pos, n)
  {
    var b := buf[pos..pos + 3];
    assert b[0] == buf[pos] && b[1] == buf[pos + 1] && b[2] == buf[pos + 2];
  }

  lemma Is32(buf: bytes, pos: nat, n: nat)
    requires n < 0x1_0000_0000 && At(buf, pos, U32Big(n))
    ensures Long(buf, pos, n)
  {
    AtSplit(buf, pos, U16Big(n / 0x1_0000), U16Big(n % 0x1_0000));
    Is16(buf, pos, n / 0x1_0000);
    Is16(buf, pos + 2, n % 0x1_0000);
  }

  lemma EncodedIndexes(buf: bytes, pos: nat, f: Frame)
    requires Encodable(f) && At(buf, pos, IndexPart(f))
    ensures IndexesAt(buf, pos, f.reliability, Indexes(f.messageIndex, f.sequenceIndex, f.orderIndex))
    ensures |IndexPart(f)| == IndexSize(f.reliability)
    ensures f.reliability.IsSequencedOrOrdered() ==> buf[pos + IndexSize(f.reliability) - 1] == 0
  {
    var m, s, o := MessagePart(f), SequencePart(f), OrderPart(f);
    AtSplit(buf, pos, m, s + o);
    AtSplit(buf, pos + |m|, s, o);
    if f.reliability.IsReliable() { Is24(buf, pos, f.messageIndex); }
    if f.reliability.IsSequenced() { Is24(buf, pos + |m|, f.sequenceIndex); }
    if f.reliability.IsSequencedOrOrdered() {
      var p := pos + |m| + |s|;
      AtSplit(buf, p, U24Little(f.orderIndex), [0]);
      Is24(buf, p, f.orderIndex);
      assert buf[p + 3..p + 4] == [0];
    }
  }

  lemma EncodedSplit(buf: bytes, pos: nat, f: Frame)
    requires Encodable(f) && At(buf, pos, SplitPart(f))
    ensures f.split ==> SplitAt(buf, pos, SplitFields(f.splitCount, f.splitId, f.splitIndex))
    ensures |SplitPart(f)| == if f.split then 10 else 0
  {
    if f.split {
      AtSplit(buf, pos, U32Big(f.splitCount), U16Big(f.splitId) + U32Big(f.splitIndex));
      AtSplit(buf, pos + 4, U16Big(f.splitId), U32Big(f.splitIndex));
      Is32(buf, pos, f.splitCount);
      Is16(buf, pos + 4, f.splitId);
      Is32(buf, pos + 6, f.splitIndex);
    }
  }

  lemma PartsOf(e: bytes, h: byte, l: bytes, x: bytes, t: bytes, data: bytes)
    requires |l| == 2 && e == [h] + (l + (x + (t + data)))
    ensures |e| == 3 + |x| + |t| + |data| && e[0] == h
    ensures At(e, 1, l) && At(e, 3, x) && At(e, 3 + |x|, t) && e[3 + |x| + |t|..] == data
  {
    assert e[0..|e|] == e;
    FrameParts(e, 0, h, l, x, t, data);
    assert e[0..1] == [h];
  }

  lemma HeaderIs(e: bytes, f: Frame)
    requires e != [] && e[0] == Header(f)
    ensures HeaderAt(e, 0, f.reliability, f.split) && e[0] % 16 == 0
  {
  }

  lemma FieldsOf(e: bytes, f: Frame, x: bytes, t: bytes)
    requires Encodable(f) && x == IndexPart(f) && t == SplitPart(f)
    requires e != [] && e[0] == Header(f) && At(e, 3, x) && At(e, 3 + |x|, t)
    ensures FieldsAt(e, 0, f) && e[0] % 16 == 0
    ensures 3 + |x| + |t| == DataOffset(f.reliability, f.split)
    ensures f.reliability.IsSequencedOrOrdered() ==> e[2 + IndexSize(f.reliability)] == 0
  {
    HeaderIs(e, f);
    EncodedIndexes(e, 3, f);
    EncodedSplit(e, 3 + |x|, f);
  }

  /** The bytes of an encoded frame: the header with nothing in its low bits, the length in
      bits cast to 16 bits, the indices with a zero byte after the order index, the split
      fields, the data, and nothing else. */
  lemma EncodedBytes(f: Frame)
    requires Encodable(f)
    ensures var e, d := EncodeFrame(f), DataOffset(f.reliability, f.split);
            && |e| == d + |f.data| && e[d..] == f.data
            && FieldsAt(e, 0, f) && e[0] % 16 == 0 && Short(e, 1, |f.data| * 8 % 65536)
            && (f.reliability.IsSequencedOrOrdered() ==> e[2 + IndexSize(f.reliability)] == 0)
  {
    AssembledBytes(EncodeFrame(f), f, U16Big(BitLength(f)), IndexPart(f), SplitPart(f));
  }

  lemma AssembledBytes(e: bytes, f: Frame, l: bytes, x: bytes, t: bytes)
    requires Encodable(f) && l == U16Big(BitLength(f)) && x == IndexPart(f) && t == SplitPart(f)
    requires e == [Header(f)] + (l + (x + (t + f.data)))
    ensures var d := DataOffset(f.reliability, f.split);
            && |e| == d + |f.data| && e[d..] == f.data
            && FieldsAt(e, 0, f) && e[0] % 16 == 0 && Short(e, 1, |f.data| * 8 % 65536)
            && (f.reliability.IsSequencedOrOrdered() ==> e[2 + IndexSize(f.reliability)] == 0)
  {
    PartsOf(e, Header(f), l, x, t, f.data);
    Is16(e, 1, BitLength(f));
    FieldsOf(e, f, x, t);
  }

  // ---- Decoding ----

  lemma ReadsByte(buf: bytes, pos: nat)
    ensures ReadU8(buf, pos) == if pos < |buf| then Ok(buf[pos], pos + 1) else Err
  {
  }

  lemma ReadsShort(buf: bytes, pos: nat)
    ensures var x := ReadU16Big(buf, pos);
            (x.Ok? <==> pos + 2 <= |buf|) && (x.Ok? ==> Short(buf, pos, x.value) && x.pos == pos + 2)
  {
  }

  lemma ReadsTriad(buf: bytes, pos: nat)
    ensures var x := ReadU24Little(buf, pos);
            (x.Ok? <==> pos + 3 <= |buf|) && (x.Ok? ==> Triad(buf, pos, x.value) && x.pos == pos + 3)
  {
  }

  lemma ReadsLong(buf: bytes, pos: nat)
    ensures var x := ReadU32Big(buf, pos);
            (x.Ok? <==> pos + 4 <= |buf|) && (x.Ok? ==> Long(buf, pos, x.value) && x.pos == pos + 4)
  {
  }

  lemma ReadsIndexes(buf: bytes, pos: nat, r: Reliability)
    ensures var x := ReadIndexes(buf, pos, r);
            && (x.Ok? <==> r == Unreliable || pos + IndexNeeds(r) <= |buf|)
            && (x.Ok? ==> IndexesAt(buf, pos, r, x.value) && x.pos == pos + IndexSize(r))
  {
    ReadsTriad(buf, pos);
    ReadsTriad(buf, pos + 3);
    ReadsTriad(buf, pos + 6);
  }

  lemma ReadsSplit(buf: bytes, pos: nat)
    ensures var x := ReadSplit(buf, pos, true);
            && (x.Ok? <==> pos + 10 <= |buf|)
            && (x.Ok? ==> SplitAt(buf, pos, x.value) && x.pos == pos + 10)
  {
    ReadsLong(buf, pos);
    ReadsShort(buf, pos + 4);
    ReadsLong(buf, pos + 6);
  }

  /** Nothing that is read of a frame lies past the end of the buffer. */
  predicate BodyInside(buf: bytes, i: nat, r: Reliability, split: bool, size: nat) {
    && (r == Unreliable || i + IndexNeeds(r) <= |buf|)
    && (split ==> i + IndexSize(r) + 10 <= |buf|)
    && (size == 0 || i - 3 + DataOffset(r, split) + size <= |buf|)
  }

  predicate Inside(buf: bytes, pos: nat, r: Reliability, split: bool) {
    && HeaderAt(buf, pos, r, split) && pos + 3 <= |buf|
    && BodyInside(buf, pos + 3, r, split, LengthAt(buf, pos + 1))
  }

  lemma BodyDecodesIff(buf: bytes, i: nat, r: Reliability, split: bool, size: nat)
    ensures DecodeBody(buf, i, r, split, size).Ok? <==> BodyInside(buf, i, r, split, size)
  {
    ReadsIndexes(buf, i, r);
    ReadsSplit(buf, i + IndexSize(r));
  }

  lemma BodyFields(buf: bytes, i: nat, r: Reliability, split: bool, size: nat)
    requires DecodeBody(buf, i, r, split, size).Ok?
    ensures var f := DecodeBody(buf, i, r, split, size).value;
            && f.reliability == r && f.split == split
            && IndexesAt(buf, i, r, Indexes(f.messageIndex, f.sequenceIndex, f.orderIndex))
            && (split ==> SplitAt(buf, i + IndexSize(r), SplitFields(f.splitCount, f.splitId, f.splitIndex)))
  {
    ReadsIndexes(buf, i, r);
    if split { ReadsSplit(buf, i + IndexSize(r)); }
  }

  lemma BodyEnds(buf: bytes, i: nat, r: Reliability, split: bool, size: nat)
    requires DecodeBody(buf, i, r, split, size).Ok?
    ensures var d := DecodeBody(buf, i, r, split, size);
            && |d.value.data| == size && d.pos == i - 3 + DataOffset(r, split) + size
            && (size != 0 ==> d.pos <= |buf| && d.value.data == buf[d.pos - size..d.pos])
  {
    ReadsIndexes(buf, i, r);
    if split { ReadsSplit(buf, i + IndexSize(r)); }
  }

  function LengthAt(buf: bytes, i: nat): nat
    requires i + 2 <= |buf|
  {
    (buf[i] as int * 256 + buf[i + 1] as int) / 8
  }

  lemma HeaderReads(header: byte, r: Reliability)
    requires header / 32 == CodeOf(r)
    ensures HeaderReliability(header) == Some(r) && HeaderSplit(header) == (header / 16 % 2 == 1)
  {
  }

  lemma HeadDecodes(buf: bytes, pos: nat, r: Reliability, split: bool)
    requires HeaderAt(buf, pos, r, split)
    ensures if pos + 3 <= |buf| then
              DecodeFrame(buf, pos) == DecodeBody(buf, pos + 3, r, split, LengthAt(buf, pos + 1))
            else DecodeFrame(buf, pos).Err?
  {
    HeaderReads(buf[pos], r);
    ReadsByte(buf, pos);
    ReadsShort(buf, pos + 1);
  }

  lemma HeaderDecodes(buf: bytes, pos: nat)
    requires DecodeFrame(buf, pos).Ok?
    ensures exists r, split :: HeaderAt(buf, pos, r, split)
  {
    assert HeaderAt(buf, pos, HeaderReliability(buf[pos]).value, HeaderSplit(buf[pos]));
  }

  /** Exactly when a frame decodes: its header names one of the five reliabilities, and
      nothing that is read of it lies past the end of the buffer. */
  lemma DecodesIff(buf: bytes, pos: nat)
    ensures DecodeFrame(buf, pos).Ok? <==> exists r, split :: Inside(buf, pos, r, split)
  {
    if DecodeFrame(buf, pos).Ok? {
      HeaderDecodes(buf, pos);
      var r, split :| HeaderAt(buf, pos, r, split);
      HeadDecodes(buf, pos, r, split);
      BodyDecodesIff(buf, pos + 3, r, split, LengthAt(buf, pos + 1));
      assert Inside(buf, pos, r, split);
    }
    if r, split :| Inside(buf, pos, r, split) {
      HeadDecodes(buf, pos, r, split);
      BodyDecodesIff(buf, pos + 3, r, split, LengthAt(buf, pos + 1));
    }
  }

  /** And what it then is: the fields stand where an encoded frame has them, and the data is
      what lies in front of the cursor, as long as the length field says in bits. */
  lemma DecodedBytes(buf: bytes, pos: nat)
    requires DecodeFrame(buf, pos).Ok?
    ensures var f, p := DecodeFrame(buf, pos).value, DecodeFrame(buf, pos).pos;
            && FieldsAt(buf, pos, f) && pos + 3 <= |buf|
            && |f.data| == (buf[pos + 1] as int * 256 + buf[pos + 2] as int) / 8
            && p == pos + DataOffset(f.reliability, f.split) + |f.data|
            && (f.data != [] ==> p <= |buf| && f.data == buf[p - |f.data|..p])
  {
    HeaderDecodes(buf, pos);
    var r, split :| HeaderAt(buf, pos, r, split);
    HeadDecodes(buf, pos, r, split);
    BodyFields(buf, pos + 3, r, split, LengthAt(buf, pos + 1));
    BodyEnds(buf, pos + 3, r, split, LengthAt(buf, pos + 1));
  }

  // ---- Frame sets ----

  lemma AtBefore(buf: bytes, head: bytes, tail: bytes, pos: nat, e: bytes)
    requires buf == head + tail && At(head, pos, e)
    ensures At(buf, pos, e)
  {
  }

  lemma AtEnd(buf: bytes, head: bytes, e: bytes)
    requires buf == head + e
    ensures At(buf, |head|, e)
  {
  }

  /** Frame `i` stands directly behind the ones before it. */
  ghost predicate Stands(frames: seq<Frame>, i: nat)
    requires i < |frames| && forall f :: f in frames ==> Encodable(f)
  {
    At(EncodeFrames(frames), TotalLength(frames[..i]), EncodeFrame(frames[i]))
  }

  lemma StandsStill(front: seq<Frame>, last: Frame, i: nat)
    requires i < |front| && Encodable(last) && (forall f :: f in front ==> Encodable(f)) && Stands(front, i)
    ensures Stands(front + [last], i)
  {
    assert (front + [last])[..i] == front[..i];
    EncodeFramesSnoc(front, last);
    AtBefore(EncodeFrames(front + [last]), EncodeFrames(front), EncodeFrame(last), TotalLength(front[..i]),
             EncodeFrame(front[i]));
  }

  lemma LastStands(front: seq<Frame>, last: Frame)
    requires Encodable(last) && forall f :: f in front ==> Encodable(f)
    ensures Stands(front + [last], |front|)
  {
    assert (front + [last])[..|front|] == front;
    EncodeFramesSnoc(front, last);
    EncodeFramesLength(front);
    AtEnd(EncodeFrames(front + [last]), EncodeFrames(front), EncodeFrame(last));
  }

  /** Frames are written one directly after the other. */
  lemma {:induction false} FramesStand(frames: seq<Frame>, i: nat)
    requires i < |frames| && forall f :: f in frames ==> Encodable(f)
    ensures Stands(frames, i)
  {
    var front, last := frames[..|frames| - 1], frames[|frames| - 1];
    assert frames == front + [last];
    if i < |front| {
      FramesStand(front, i);
      StandsStill(front, last, i);
    } else {
      LastStands(front, last);
    }
  }

  /** The bytes of a frame set: its header, its number, and then its frames. */
  lemma SetBytes(s: FrameSet)
    requires SetEncodable(s)
    ensures var e := EncodeFrameSet(s);
            |e| >= 4 && e[0] == s.header && Triad(e, 1, s.sequenceNumber) && e[4..] == EncodeFrames(s.datas)
  {
    TriadIs(s.sequenceNumber);
    SetHead(EncodeFrameSet(s), s.header, U24Little(s.sequenceNumber), EncodeFrames(s.datas));
  }

  lemma SetHead(e: bytes, header: byte, n: bytes, tail: bytes)
    requires |n| == 3 && e == [header] + n + tail
    ensures |e| >= 4 && e[0] == header && e[4..] == tail && e[1] == n[0] && e[2] == n[1] && e[3] == n[2]
  {
  }

  /** `frames` decode one after the other, each from where the one before left the cursor,
      until the cursor has reached the end of the buffer. */
  ghost predicate Walks(buf: bytes, cursors: seq<nat>, frames: seq<Frame>) {
    && |cursors| == |frames| + 1 && cursors[|frames|] >= |buf|
    && forall i :: 0 <= i < |frames| ==>
         cursors[i] < |buf| && DecodeFrame(buf, cursors[i]) == Ok(frames[i], cursors[i + 1])
  }

  lemma WalksOn(buf: bytes, pos: nat, f: Frame, cursors: seq<nat>, frames: seq<Frame>)
    requires Walks(buf, cursors, frames) && pos < |buf| && DecodeFrame(buf, pos) == Ok(f, cursors[0])
    ensures Walks(buf, [pos] + cursors, [f] + frames)
  {
  }

  lemma WalksFrom(buf: bytes, cursors: seq<nat>, frames: seq<Frame>)
    requires Walks(buf, cursors, frames) && frames != []
    ensures Walks(buf, cursors[1..], frames[1..])
    ensures cursors[0] < |buf| && DecodeFrame(buf, cursors[0]) == Ok(frames[0], cursors[1])
  {
  }

  lemma {:induction false} DecodedFramesWalk(buf: bytes, pos: nat) returns (cursors: seq<nat>)
    requires DecodeFrames(buf, pos).Some?
    ensures Walks(buf, cursors, DecodeFrames(buf, pos).value) && cursors[0] == pos
    decreases if pos < |buf| then |buf| - pos else 0
  {
    if pos >= |buf| {
      cursors := [pos];
    } else {
      var d := DecodeFrame(buf, pos);
      DecodedIsCanonical(buf, pos);
      cursors := DecodedFramesWalk(buf, d.pos);
      WalksOn(buf, pos, d.value, cursors, DecodeFrames(buf, d.pos).value);
      cursors := [pos] + cursors;
    }
  }

  lemma {:induction false} WalkDecodes(buf: bytes, cursors: seq<nat>, frames: seq<Frame>)
    requires Walks(buf, cursors, frames)
    ensures DecodeFrames(buf, cursors[0]) == Some(frames)
    decreases |frames|
  {
    if frames != [] {
      WalksFrom(buf, cursors, frames);
      WalkDecodes(buf, cursors[1..], frames[1..]);
      assert frames == [frames[0]] + frames[1..];
    }
  }

  ghost predicate SetStands(buf: bytes, s: FrameSet, cursors: seq<nat>) {
    && |buf| >= 4 && s.header == buf[0] && Triad(buf, 1, s.sequenceNumber)
    && Walks(buf, cursors, s.datas) && cursors[0] == 4
  }

  /** Exactly when a datagram decodes, and what it then is: a header, a number, and frames
      that decode one after the other up to the end. */
  lemma SetDecodesIff(buf: bytes, s: FrameSet)
    ensures DecodeFrameSet(buf) == Some(s) <==> exists cursors :: SetStands(buf, s, cursors)
  {
    ReadsTriad(buf, 1);
    if DecodeFrameSet(buf) == Some(s) {
      var cursors := DecodedFramesWalk(buf, 4);
      assert SetStands(buf, s, cursors);
    }
    if cursors :| SetStands(buf, s, cursors) {
      WalkDecodes(buf, cursors, s.datas);
      assert buf[0..1] == [s.header];
    }
  }

  // ---- ACKs and NACKs ----

  /** The bytes of a packet that reports a range: a single number takes seven bytes, any
      other range ten. */
  lemma PacketBytes(id: byte, sequences: Range)
    requires sequences.0 < 0x100_0000 && sequences.1 < 0x100_0000
    ensures var e := EncodePacket(id, NewRecord(sequences));
            && |e| >= 7 && e[0] == id && Short(e, 1, 1) && Triad(e, 4, sequences.0)
            && if sequences.0 == sequences.1 then |e| == 7 && e[3] == 1
               else |e| == 10 && e[3] == 0 && Triad(e, 7, sequences.1)
  {
    TriadIs(sequences.0);
    TriadIs(sequences.1);
    if sequences.0 == sequences.1 {
      assert EncodePacket(id, NewRecord(sequences)) == [id, 0, 1, 1] + U24Little(sequences.0);
    } else {
      assert EncodePacket(id, NewRecord(sequences)) ==
        [id, 0, 1, 0] + U24Little(sequences.0) + U24Little(sequences.1);
    }
  }

  lemma TriadIs(n: nat)
    requires n < 0x100_0000
    ensures Triad(U24Little(n), 0, n)
  {
  }

  /** Exactly when a record decodes: the number of records is not looked at, any flag but
      zero stands for a single number, and nothing may be missing. */
  lemma RecordDecodesIff(buf: bytes, r: Record)
    ensures DecodeRecord(buf) == Some(r) <==>
      && Short(buf, 0, r.recordCount) && |buf| >= 6 && (r.maxEqualsMin <==> buf[2] != 0)
      && Triad(buf, 3, r.sequences.0)
      && if r.maxEqualsMin then r.sequences.1 == r.sequences.0 else Triad(buf, 6, r.sequences.1)
  {
    ReadsShort(buf, 0);
    ReadsTriad(buf, 3);
    ReadsTriad(buf, 6);
  }

  /** Where a packet goes is decided by three bits of its first byte: 0x40 for an ACK, then
      0x20 for a NACK, then 0x80 for a datagram. */
  lemma RouteIs(header: byte)
    ensures RouteOf(header) ==
      if 64 <= header < 128 || 192 <= header then ToAck
      else if 32 <= header < 64 || 160 <= header then ToNack
      else if 128 <= header then ToDatagram
      else Dropped
  {
  }
}

/** Encoding and decoding as the program does it, with a cursor and a growing buffer. */
module FrameIO {
  import opened Frames
  import opened Wire
  import opened FrameCodec

  method Length(f: Frame) returns (ret: nat)
    ensures ret == f.Length() && (Encodable(f) ==> ret == |EncodeFrame(f)|)
  {
    ret := 0;
    ret := ret + 1;
    ret := ret + 2;
    if f.reliability.IsReliable() {
      ret := ret + 3;
    }
    if f.reliability.IsSequenced() {
      ret := ret + 3;
    }
    if f.reliability.IsSequencedOrOrdered() {
      ret := ret + 4;
    }
    if f.split {
      ret := ret + 10;
    }
    ret := ret + |f.data|;
  }

  lemma Regroup(start: bytes, h: bytes, l: bytes, m: bytes, s: bytes, o: bytes, t: bytes, d: bytes)
    ensures start + h + l + m + s + o + t + d == start + (h + (l + ((m + (s + o)) + (t + d))))
  {
  }

  method Encode(f: Frame, cursor: Writer)
    requires Encodable(f)
    modifies cursor
    ensures cursor.inner == old(cursor.inner) + EncodeFrame(f)
  {
    Regroup(cursor.inner, [Header(f)], U16Big(BitLength(f)),
            MessagePart(f), SequencePart(f), OrderPart(f), SplitPart(f), f.data);
    cursor.WriteByte(Header(f));
    cursor.WriteShort(|f.data| * 8 % 0x1_0000);
    EncodeIndexes(f, cursor);
    EncodeSplit(f, cursor);
    cursor.Write(f.data);
  }

  method EncodeIndexes(f: Frame, cursor: Writer)
    requires Encodable(f)
    modifies cursor
    ensures cursor.inner == old(cursor.inner) + MessagePart(f) + SequencePart(f) + OrderPart(f)
  {
    if f.reliability.IsReliable() {
      cursor.WriteTriad(f.messageIndex);
    }
    if f.reliability.IsSequenced() {
      cursor.WriteTriad(f.sequenceIndex);
    }
    if f.reliability.IsSequencedOrOrdered() {
      cursor.WriteTriad(f.orderIndex);
      cursor.WriteByte(0);
    }
  }

  method EncodeSplit(f: Frame, cursor: Writer)
    requires Encodable(f)
    modifies cursor
    ensures cursor.inner == old(cursor.inner) + SplitPart(f)
  {
    if f.split {
      cursor.WriteInt(f.splitCount);
      cursor.WriteShort(f.splitId);
      cursor.WriteInt(f.splitIndex);
    }
  }

  method DecodeIndexes(cursor: Reader, r: Reliability) returns (x: Option<Indexes>)
    modifies cursor
    ensures x == ReadIndexes(cursor.buf, old(cursor.pos), r).ToOption()
    ensures x.Some? ==> cursor.pos == ReadIndexes(cursor.buf, old(cursor.pos), r).pos
  {
    var message, sequence, order: Option<nat> := Some(0), Some(0), Some(0);
    if r.IsReliable() {
      message := cursor.ReadTriad();
      if message.None? { return None; }
    }
    if r.IsSequenced() {
      sequence := cursor.ReadTriad();
      if sequence.None? { return None; }
    }
    if r.IsSequencedOrOrdered() {
      order := cursor.ReadTriad();
      if order.None? { return None; }
      cursor.Next(1);
    }
    x := Some(Indexes(message.value, sequence.value, order.value));
  }

  method DecodeSplit(cursor: Reader, split: bool) returns (x: Option<SplitFields>)
    modifies cursor
    ensures x == ReadSplit(cursor.buf, old(cursor.pos), split).ToOption()
    ensures x.Some? ==> cursor.pos == ReadSplit(cursor.buf, old(cursor.pos), split).pos
  {
    if !split { return Some(SplitFields(0, 0, 0)); }
    var count := cursor.ReadInt();
    if count.None? { return None; }
    var id := cursor.ReadShort();
    if id.None? { return None; }
    var index := cursor.ReadInt();
    if index.None? { return None; }
    x := Some(SplitFields(count.value, id.value, index.value));
  }

  method Decode(cursor: Reader) returns (f: Option<Frame>)
    modifies cursor
    ensures f == DecodeFrame(cursor.buf, old(cursor.pos)).ToOption()
    ensures f.Some? ==> cursor.pos == DecodeFrame(cursor.buf, old(cursor.pos)).pos
  {
    var header := cursor.ReadByte();
    if header.None? { return None; }
    var split := HeaderSplit(header.value);
    var reliability := HeaderReliability(header.value);
    if reliability.None? { return None; }
    var length := cursor.ReadShort();
    if length.None? { return None; }
    var at := DecodeIndexes(cursor, reliability.value);
    if at.None? { return None; }
    var fields := DecodeSplit(cursor, split);
    if fields.None? { return None; }
    var data := cursor.Read(length.value / 8);
    if data.None? { return None; }
    f := Some(Frame(reliability.value, at.value.message, at.value.sequence, at.value.order,
                    split, fields.value.count, fields.value.index, fields.value.id, data.value));
  }

  /** What is still to be decoded completes what has been. */
  ghost predicate Completes(all: Option<seq<Frame>>, done: seq<Frame>, rest: Option<seq<Frame>>) {
    if rest.Some? then all == Some(done + rest.value) else all == None
  }

  lemma CompletesFromStart(all: Option<seq<Frame>>)
    ensures Completes(all, [], all)
  {
    if all.Some? { assert [] + all.value == all.value; }
  }

  lemma CompletesNext(all: Option<seq<Frame>>, done: seq<Frame>, f: Frame, rest: Option<seq<Frame>>)
    requires Completes(all, done, if rest.Some? then Some([f] + rest.value) else None)
    ensures Completes(all, done + [f], rest)
  {
    if rest.Some? { Regrouped(done, [f], rest.value); }
  }

  /** Every pass of the loop moves the cursor on, so decoding ends on any input. */
  method DecodeSet(payload: bytes) returns (s: Option<FrameSet>)
    ensures s == DecodeFrameSet(payload)
  {
    var cursor := new Reader(payload);
    var header := cursor.ReadByte();
    if header.None? { return None; }
    var sequence := cursor.ReadTriad();
    if sequence.None? { return None; }
    var datas: seq<Frame> := [];
    ghost var start := cursor.pos;
    CompletesFromStart(DecodeFrames(payload, start));
    while cursor.pos < |payload|
      invariant cursor.buf == payload
      invariant Completes(DecodeFrames(payload, start), datas, DecodeFrames(payload, cursor.pos))
      decreases if cursor.pos < |payload| then |payload| - cursor.pos else 0
    {
      DecodedIsCanonical(payload, cursor.pos);
      var f := Decode(cursor);
      if f.None? { return None; }
      CompletesNext(DecodeFrames(payload, start), datas, f.value, DecodeFrames(payload, cursor.pos));
      datas := datas + [f.value];
    }
    assert datas + [] == datas;
    s := Some(FrameSet(header.value, sequence.value, datas));
  }

  method EncodeAll(frames: seq<Frame>, cursor: Writer)
    requires forall i :: 0 <= i < |frames| ==> Encodable(frames[i])
    modifies cursor
    ensures cursor.inner == old(cursor.inner) + EncodeFrames(frames)
  {
    for i := 0 to |frames|
      invariant cursor.inner == old(cursor.inner) + EncodeFrames(frames[..i])
    {
      EncodeFramesNext(frames, i);
      Regrouped(old(cursor.inner), EncodeFrames(frames[..i]), EncodeFrame(frames[i]));
      Encode(frames[i], cursor);
    }
    assert frames[..|frames|] == frames;
  }

  method EncodeSet(s: FrameSet) returns (out: bytes)
    requires SetEncodable(s)
    ensures out == EncodeFrameSet(s)
  {
    var cursor := new Writer([]);
    cursor.WriteByte(s.header);
    cursor.WriteTriad(s.sequenceNumber);
    EncodeAll(s.datas, cursor);
    out := cursor.inner;
  }
}

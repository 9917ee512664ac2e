/** The wire format of frames and frame sets. */
module FrameCodec {
  import opened Frames
  import opened Wire

  const SPLIT_FLAG: nat := 0x10

  function ReliabilityOf(code: nat): Option<Reliability> {
    match code
    case 0 => Some(Unreliable)
    case 1 => Some(UnreliableSequenced)
    case 2 => Some(Reliable)
    case 3 => Some(ReliableOrdered)
    case 4 => Some(ReliableSequenced)
    case _ => None
  }

  function ToByte(r: Reliability): byte {
    match r
    case Unreliable => 0
    case UnreliableSequenced => 1
    case Reliable => 2
    case ReliableOrdered => 3
    case ReliableSequenced => 4
  }

  /** The header byte: the reliability in the top three bits, the split flag below them. */
  function Header(f: Frame): byte {
    ToByte(f.reliability) * 0x20 + if f.split then SPLIT_FLAG else 0
  }

  function HeaderSplit(header: byte): bool {
    header / SPLIT_FLAG % 2 == 1
  }

  function HeaderReliability(header: byte): Option<Reliability> {
    ReliabilityOf(header / 0x20)
  }

  /** The fields have the widths that their types in the program give them. */
  ghost predicate FitsTypes(f: Frame) {
    f.splitCount < 0x1_0000_0000 && f.splitIndex < 0x1_0000_0000 && f.splitId < 0x1_0000
  }

  /** No 24-bit field that is written overflows, which would stop the program. */
  ghost predicate Encodable(f: Frame) {
    && FitsTypes(f)
    && (f.reliability.IsReliable() ==> f.messageIndex < 0x100_0000)
    && (f.reliability.IsSequenced() ==> f.sequenceIndex < 0x100_0000)
    && (f.reliability.IsSequencedOrOrdered() ==> f.orderIndex < 0x100_0000)
  }

  /** What can be told from the wire: fields that are not carried are zero, and the
      length in bits fits its 16 bits. */
  ghost predicate Canonical(f: Frame) {
    && (!f.reliability.IsReliable() ==> f.messageIndex == 0)
    && (!f.reliability.IsSequenced() ==> f.sequenceIndex == 0)
    && (!f.reliability.IsSequencedOrOrdered() ==> f.orderIndex == 0)
    && (!f.split ==> f.splitCount == 0 && f.splitIndex == 0 && f.splitId == 0)
    && |f.data| < 0x2000
  }

  /** The length field: the number of bits, cast to 16 bits. */
  function BitLength(f: Frame): nat {
    |f.data| * 8 % 0x1_0000
  }

  function MessagePart(f: Frame): bytes
    requires Encodable(f)
  {
    if f.reliability.IsReliable() then U24Little(f.messageIndex) else []
  }

  function SequencePart(f: Frame): bytes
    requires Encodable(f)
  {
    if f.reliability.IsSequenced() then U24Little(f.sequenceIndex) else []
  }

  function OrderPart(f: Frame): bytes
    requires Encodable(f)
  {
    if f.reliability.IsSequencedOrOrdered() then U24Little(f.orderIndex) + [0] else []
  }

  function SplitPart(f: Frame): bytes
    requires Encodable(f)
  {
    if f.split then U32Big(f.splitCount) + (U16Big(f.splitId) + U32Big(f.splitIndex)) else []
  }

  function IndexPart(f: Frame): bytes
    requires Encodable(f)
  {
    MessagePart(f) + (SequencePart(f) + OrderPart(f))
  }

  function EncodeFrame(f: Frame): bytes
    requires Encodable(f)
  {
    [Header(f)] + (U16Big(BitLength(f)) + (IndexPart(f) + (SplitPart(f) + f.data)))
  }

  /** The budget the sender keeps for a frame is exactly its size on the wire. */
  lemma EncodedLength(f: Frame)
    requires Encodable(f)
    ensures |EncodeFrame(f)| == f.Length()
  {
  }

  datatype Indexes = Indexes(message: nat, sequence: nat, order: nat)

  datatype SplitFields = SplitFields(count: nat, id: nat, index: nat)

  function ReadIf24(buf: bytes, pos: nat, carried: bool): Parsed<nat> {
    if carried then ReadU24Little(buf, pos) else Ok(0, pos)
  }

  /** The byte after an order index is skipped, not read, so the cursor may end up past
      the end of the buffer. */
  function ReadOrder(buf: bytes, pos: nat, carried: bool): Parsed<nat> {
    if carried then
      var (order, p) :- ReadU24Little(buf, pos);
      Ok(order, p + 1)
    else Ok(0, pos)
  }

  function ReadIndexes(buf: bytes, pos: nat, r: Reliability): Parsed<Indexes> {
    var (message, p) :- ReadIf24(buf, pos, r.IsReliable());
    var (sequence, p) :- ReadIf24(buf, p, r.IsSequenced());
    var (order, p) :- ReadOrder(buf, p, r.IsSequencedOrOrdered());
    Ok(Indexes(message, sequence, order), p)
  }

  function ReadSplit(buf: bytes, pos: nat, split: bool): Parsed<SplitFields> {
    if split then
      var (count, p) :- ReadU32Big(buf, pos);
      var (id, p) :- ReadU16Big(buf, p);
      var (index, p) :- ReadU32Big(buf, p);
      Ok(SplitFields(count, id, index), p)
    else Ok(SplitFields(0, 0, 0), pos)
  }

  /** Everything after the header and the length field. */
  function DecodeBody(buf: bytes, pos: nat, r: Reliability, split: bool, size: nat): Parsed<Frame> {
    var (at, p) :- ReadIndexes(buf, pos, r);
    var (fields, p) :- ReadSplit(buf, p, split);
    var (data, p) :- ReadBytes(buf, p, size);
    Ok(Frame(r, at.message, at.sequence, at.order, split, fields.count, fields.index, fields.id, data), p)
  }

  function DecodeFrame(buf: bytes, pos: nat): Parsed<Frame> {
    var (header, p) :- ReadU8(buf, pos);
    var split := HeaderSplit(header);
    var reliability := HeaderReliability(header);
    if reliability.None? then Err else
      var (length, p) :- ReadU16Big(buf, p);
      DecodeBody(buf, p, reliability.value, split, length / 8)
  }

  // ---- Round trip of one frame ----

  lemma HeaderReadsBack(f: Frame)
    ensures HeaderSplit(Header(f)) == f.split && HeaderReliability(Header(f)) == Some(f.reliability)
  {
  }

  lemma ReadOrderBack(buf: bytes, pos: nat, f: Frame)
    requires Encodable(f) && Canonical(f) && At(buf, pos, OrderPart(f))
    ensures ReadOrder(buf, pos, f.reliability.IsSequencedOrOrdered()) == Ok(f.orderIndex, pos + |OrderPart(f)|)
  {
    if f.reliability.IsSequencedOrOrdered() {
      AtSplit(buf, pos, U24Little(f.orderIndex), [0]);
      ReadBack24(buf, pos, f.orderIndex);
    }
  }

  lemma ReadSplitBack(buf: bytes, pos: nat, f: Frame)
    requires Encodable(f) && Canonical(f) && At(buf, pos, SplitPart(f))
    ensures ReadSplit(buf, pos, f.split) == Ok(SplitFields(f.splitCount, f.splitId, f.splitIndex), pos + |SplitPart(f)|)
  {
    if f.split {
      AtSplit(buf, pos, U32Big(f.splitCount), U16Big(f.splitId) + U32Big(f.splitIndex));
      AtSplit(buf, pos + 4, U16Big(f.splitId), U32Big(f.splitIndex));
      ReadBack32(buf, pos, f.splitCount);
      ReadBack16(buf, pos + 4, f.splitId);
      ReadBack32(buf, pos + 6, f.splitIndex);
    }
  }

  lemma ReadIndexesBack(buf: bytes, pos: nat, f: Frame)
    requires Encodable(f) && Canonical(f) && At(buf, pos, IndexPart(f))
    ensures ReadIndexes(buf, pos, f.reliability) ==
      Ok(Indexes(f.messageIndex, f.sequenceIndex, f.orderIndex), pos + |IndexPart(f)|)
  {
    var m, s, o := MessagePart(f), SequencePart(f), OrderPart(f);
    AtSplit(buf, pos, m, s + o);
    AtSplit(buf, pos + |m|, s, o);
    if f.reliability.IsReliable() { ReadBack24(buf, pos, f.messageIndex); }
    if f.reliability.IsSequenced() { ReadBack24(buf, pos + |m|, f.sequenceIndex); }
    ReadOrderBack(buf, pos + |m| + |s|, f);
  }

  lemma FrameParts(buf: bytes, pos: nat, h: byte, l: bytes, x: bytes, t: bytes, data: bytes)
    requires |l| == 2 && At(buf, pos, [h] + (l + (x + (t + data))))
    ensures ReadU8(buf, pos) == Ok(h, pos + 1) && At(buf, pos + 1, l) && At(buf, pos + 3, x)
    ensures At(buf, pos + 3 + |x|, t) && At(buf, pos + 3 + |x| + |t|, data)
  {
    AtSplit(buf, pos, [h], l + (x + (t + data)));
    AtSplit(buf, pos + 1, l, x + (t + data));
    AtSplit(buf, pos + 3, x, t + data);
    AtSplit(buf, pos + 3 + |x|, t, data);
    assert buf[pos..pos + 1] == [h];
  }

  lemma DecodeFromParts(buf: bytes, pos: nat, f: Frame, length: nat, p: nat, q: nat)
    requires ReadU8(buf, pos) == Ok(Header(f), pos + 1)
    requires ReadU16Big(buf, pos + 1) == Ok(length, pos + 3) && length / 8 == |f.data|
    requires ReadIndexes(buf, pos + 3, f.reliability) == Ok(Indexes(f.messageIndex, f.sequenceIndex, f.orderIndex), p)
    requires ReadSplit(buf, p, f.split) == Ok(SplitFields(f.splitCount, f.splitId, f.splitIndex), q)
    requires ReadBytes(buf, q, |f.data|) == Ok(f.data, q + |f.data|)
    ensures DecodeFrame(buf, pos) == Ok(f, q + |f.data|)
  {
    HeaderReadsBack(f);
  }

  lemma LengthReadsBack(buf: bytes, pos: nat, f: Frame)
    requires Canonical(f) && At(buf, pos, U16Big(BitLength(f)))
    ensures ReadU16Big(buf, pos) == Ok(BitLength(f), pos + 2) && BitLength(f) / 8 == |f.data|
  {
    ReadBack16(buf, pos, BitLength(f));
  }

  lemma HeadReadsBack(buf: bytes, pos: nat, f: Frame)
    requires Encodable(f) && Canonical(f)
    requires At(buf, pos + 1, U16Big(BitLength(f))) && At(buf, pos + 3, IndexPart(f))
    ensures ReadU16Big(buf, pos + 1) == Ok(BitLength(f), pos + 3) && BitLength(f) / 8 == |f.data|
    ensures ReadIndexes(buf, pos + 3, f.reliability) ==
      Ok(Indexes(f.messageIndex, f.sequenceIndex, f.orderIndex), pos + 3 + |IndexPart(f)|)
  {
    LengthReadsBack(buf, pos + 1, f);
    ReadIndexesBack(buf, pos + 3, f);
  }

  lemma PartsReadBack(buf: bytes, pos: nat, f: Frame, p: nat, q: nat)
    requires Encodable(f) && Canonical(f) && p == pos + 3 + |IndexPart(f)| && q == p + |SplitPart(f)|
    requires ReadU8(buf, pos) == Ok(Header(f), pos + 1)
    requires At(buf, pos + 1, U16Big(BitLength(f))) && At(buf, pos + 3, IndexPart(f))
    requires At(buf, p, SplitPart(f)) && At(buf, q, f.data)
    ensures DecodeFrame(buf, pos) == Ok(f, q + |f.data|)
  {
    HeadReadsBack(buf, pos, f);
    ReadSplitBack(buf, p, f);
    ReadBackBytes(buf, q, f.data);
    DecodeFromParts(buf, pos, f, BitLength(f), p, q);
  }

  lemma EncodedSize(f: Frame)
    requires Encodable(f)
    ensures |EncodeFrame(f)| == 3 + |IndexPart(f)| + |SplitPart(f)| + |f.data|
  {
  }

  lemma AssembledReadsBack(buf: bytes, pos: nat, f: Frame, l: bytes, x: bytes, t: bytes)
    requires Encodable(f) && Canonical(f) && l == U16Big(BitLength(f)) && x == IndexPart(f) && t == SplitPart(f)
    requires At(buf, pos, [Header(f)] + (l + (x + (t + f.data))))
    ensures DecodeFrame(buf, pos) == Ok(f, pos + 3 + |x| + |t| + |f.data|)
  {
    FrameParts(buf, pos, Header(f), l, x, t, f.data);
    PartsReadBack(buf, pos, f, pos + 3 + |x|, pos + 3 + |x| + |t|);
  }

  /** A frame reads back as it was, wherever it stands, and the cursor then stands at its
      end: frames are self-delimiting. */
  lemma FrameReadsBack(buf: bytes, pos: nat, f: Frame)
    requires Encodable(f) && Canonical(f) && At(buf, pos, EncodeFrame(f))
    ensures DecodeFrame(buf, pos) == Ok(f, pos + |EncodeFrame(f)|)
  {
    AssembledReadsBack(buf, pos, f, U16Big(BitLength(f)), IndexPart(f), SplitPart(f));
    EncodedSize(f);
  }

  // ---- What any successful read looks like ----

  lemma ReadBounds(buf: bytes, pos: nat)
    ensures ReadU16Big(buf, pos).Ok? ==> ReadU16Big(buf, pos).value < 0x1_0000
    ensures ReadU24Little(buf, pos).Ok? ==> ReadU24Little(buf, pos).value < 0x100_0000
    ensures ReadU32Big(buf, pos).Ok? ==> ReadU32Big(buf, pos).value < 0x1_0000_0000
  {
  }

  lemma ReadIndexesBounds(buf: bytes, pos: nat, r: Reliability)
    ensures var x := ReadIndexes(buf, pos, r);
            x.Ok? ==> && x.value.message < (if r.IsReliable() then 0x100_0000 else 1)
                      && x.value.sequence < (if r.IsSequenced() then 0x100_0000 else 1)
                      && x.value.order < (if r.IsSequencedOrOrdered() then 0x100_0000 else 1)
                      && pos <= x.pos
  {
    if ReadIndexes(buf, pos, r).Ok? {
      ReadBounds(buf, pos);
      var p := ReadIf24(buf, pos, r.IsReliable()).pos;
      ReadBounds(buf, p);
      ReadBounds(buf, ReadIf24(buf, p, r.IsSequenced()).pos);
    }
  }

  lemma ReadSplitBounds(buf: bytes, pos: nat, split: bool)
    ensures var s := ReadSplit(buf, pos, split);
            s.Ok? ==> && s.value.count < 0x1_0000_0000 && s.value.index < 0x1_0000_0000 && s.value.id < 0x1_0000
                      && (!split ==> s.value == SplitFields(0, 0, 0)) && pos <= s.pos
  {
  }

  /** Whatever the bytes, a frame that decodes is one that a sender could have encoded,
      and the cursor has moved on. */
  lemma DecodedIsCanonical(buf: bytes, pos: nat)
    ensures var d := DecodeFrame(buf, pos);
            d.Ok? ==> Encodable(d.value) && Canonical(d.value) && pos + 3 <= d.pos && pos < |buf|
  {
    var d := DecodeFrame(buf, pos);
    if d.Ok? {
      var (header, p) := ReadU8(buf, pos).Extract();
      var r := HeaderReliability(header).value;
      ReadBounds(buf, p);
      ReadIndexesBounds(buf, p + 2, r);
      ReadSplitBounds(buf, ReadIndexes(buf, p + 2, r).pos, HeaderSplit(header));
    }
  }

  /** Exactly which frames survive the wire unchanged. */
  lemma FrameRoundTripIff(f: Frame)
    requires Encodable(f)
    ensures DecodeFrame(EncodeFrame(f), 0) == Ok(f, |EncodeFrame(f)|) <==> Canonical(f)
  {
    if Canonical(f) {
      FrameReadsBack(EncodeFrame(f), 0, f);
    } else {
      DecodedIsCanonical(EncodeFrame(f), 0);
    }
  }

  // ---- Frame sets ----

  ghost predicate SetEncodable(s: FrameSet) {
    s.sequenceNumber < 0x100_0000 && forall i :: 0 <= i < |s.datas| ==> Encodable(s.datas[i])
  }

  ghost predicate SetCanonical(s: FrameSet) {
    forall i :: 0 <= i < |s.datas| ==> Canonical(s.datas[i])
  }

  function EncodeFrames(frames: seq<Frame>): bytes
    requires forall i :: 0 <= i < |frames| ==> Encodable(frames[i])
  {
    if frames == [] then [] else EncodeFrames(frames[..|frames| - 1]) + EncodeFrame(frames[|frames| - 1])
  }

  function EncodeFrameSet(s: FrameSet): bytes
    requires SetEncodable(s)
  {
    [s.header] + U24Little(s.sequenceNumber) + EncodeFrames(s.datas)
  }

  function DecodeFrames(buf: bytes, pos: nat): Option<seq<Frame>>
    decreases if pos < |buf| then |buf| - pos else 0
  {
    if pos >= |buf| then Some([])
    else
      DecodedIsCanonical(buf, pos);
      match DecodeFrame(buf, pos)
      case Err => None
      case Ok(f, p) =>
        match DecodeFrames(buf, p)
        case None => None
        case Some(rest) => Some([f] + rest)
  }

  function DecodeFrameSet(buf: bytes): Option<FrameSet> {
    match ReadU8(buf, 0)
    case Err => None
    case Ok(header, p) =>
      match ReadU24Little(buf, p)
      case Err => None
      case Ok(sequence, p) =>
        match DecodeFrames(buf, p)
        case None => None
        case Some(datas) => Some(FrameSet(header, sequence, datas))
  }

  lemma EncodeFramesSnoc(frames: seq<Frame>, f: Frame)
    requires Encodable(f) && forall i :: 0 <= i < |frames| ==> Encodable(frames[i])
    ensures EncodeFrames(frames + [f]) == EncodeFrames(frames) + EncodeFrame(f)
  {
    assert (frames + [f])[..|frames|] == frames;
  }

  lemma EncodeOne(f: Frame)
    requires Encodable(f)
    ensures EncodeFrames([f]) == EncodeFrame(f)
  {
    EncodeFramesSnoc([], f);
    assert [] + [f] == [f];
  }

  ghost predicate AllWritable(frames: seq<Frame>) {
    forall i :: 0 <= i < |frames| ==> Encodable(frames[i])
  }

  lemma WritableParts(f: Frame, front: seq<Frame>, last: Frame)
    requires Encodable(f) && AllWritable(front + [last])
    ensures AllWritable(front) && AllWritable([f] + front) && AllWritable([f] + (front + [last])) && Encodable(last)
    ensures [f] + (front + [last]) == ([f] + front) + [last]
  {
    assert forall i :: 0 <= i < |front| ==> (front + [last])[i] == front[i];
    assert (front + [last])[|front|] == last;
  }

  lemma EncodeLast(frames: seq<Frame>, f: Frame, all: seq<Frame>)
    requires AllWritable(all) && AllWritable(frames) && Encodable(f) && all == frames + [f]
    ensures EncodeFrames(all) == EncodeFrames(frames) + EncodeFrame(f)
  {
    EncodeFramesSnoc(frames, f);
  }

  lemma {:induction false} EncodeFramesFront(f: Frame, rest: seq<Frame>)
    requires Encodable(f) && AllWritable(rest)
    ensures AllWritable([f] + rest) && EncodeFrames([f] + rest) == EncodeFrame(f) + EncodeFrames(rest)
  {
    if rest == [] {
      EncodeOne(f);
      assert [f] + rest == [f];
    } else {
      var front, last := rest[..|rest| - 1], rest[|rest| - 1];
      assert rest == front + [last];
      WritableParts(f, front, last);
      EncodeFramesFront(f, front);
      EncodeLast([f] + front, last, [f] + rest);
      EncodeLast(front, last, rest);
      Regrouped(EncodeFrame(f), EncodeFrames(front), EncodeFrame(last));
    }
  }

  lemma SuffixSplit(buf: bytes, pos: nat, a: bytes, b: bytes)
    requires pos <= |buf| && buf[pos..] == a + b
    ensures At(buf, pos, a) && pos + |a| <= |buf| && buf[pos + |a|..] == b
  {
  }

  lemma EncodeFramesNext(frames: seq<Frame>, i: nat)
    requires i < |frames| && forall k :: 0 <= k < |frames| ==> Encodable(frames[k])
    ensures EncodeFrames(frames[..i + 1]) == EncodeFrames(frames[..i]) + EncodeFrame(frames[i])
  {
    assert frames[..i + 1][..i] == frames[..i];
  }

  lemma DecodeFramesNext(buf: bytes, pos: nat, f: Frame, p: nat, rest: seq<Frame>)
    requires pos < |buf| && DecodeFrame(buf, pos) == Ok(f, p) && DecodeFrames(buf, p) == Some(rest)
    ensures DecodeFrames(buf, pos) == Some([f] + rest)
  {
  }

  ghost predicate AllReadable(frames: seq<Frame>) {
    forall i :: 0 <= i < |frames| ==> Encodable(frames[i]) && Canonical(frames[i])
  }

  lemma FirstReadsBack(buf: bytes, pos: nat, f: Frame, tail: bytes) returns (p: nat)
    requires Encodable(f) && Canonical(f) && pos <= |buf| && buf[pos..] == EncodeFrame(f) + tail
    ensures pos < p <= |buf| && buf[p..] == tail && DecodeFrame(buf, pos) == Ok(f, p)
  {
    p := pos + |EncodeFrame(f)|;
    EncodedLength(f);
    SuffixSplit(buf, pos, EncodeFrame(f), tail);
    FrameReadsBack(buf, pos, f);
  }

  lemma {:induction false} FramesReadBack(buf: bytes, pos: nat, frames: seq<Frame>)
    requires AllReadable(frames) && pos <= |buf| && buf[pos..] == EncodeFrames(frames)
    ensures DecodeFrames(buf, pos) == Some(frames)
    decreases |frames|
  {
    if frames != [] {
      var f, rest := frames[0], frames[1..];
      assert frames == [f] + rest;
      EncodeFramesFront(f, rest);
      var p := FirstReadsBack(buf, pos, f, EncodeFrames(rest));
      FramesReadBack(buf, p, rest);
      DecodeFramesNext(buf, pos, f, p, rest);
    }
  }

  lemma FrameSetReadsBack(s: FrameSet)
    requires SetEncodable(s) && SetCanonical(s)
    ensures DecodeFrameSet(EncodeFrameSet(s)) == Some(s)
  {
    var buf := EncodeFrameSet(s);
    var head := [s.header] + U24Little(s.sequenceNumber);
    SuffixSplit(buf, 0, head, EncodeFrames(s.datas));
    AtSplit(buf, 0, [s.header], U24Little(s.sequenceNumber));
    assert buf[0..1] == [s.header];
    ReadBack24(buf, 1, s.sequenceNumber);
    FramesReadBack(buf, 4, s.datas);
  }

  lemma ReadableFront(f: Frame, rest: seq<Frame>)
    requires Encodable(f) && Canonical(f) && AllReadable(rest)
    ensures AllReadable([f] + rest)
  {
  }

  lemma {:induction false} DecodedFramesAreReadable(buf: bytes, pos: nat)
    ensures DecodeFrames(buf, pos).Some? ==> AllReadable(DecodeFrames(buf, pos).value)
    decreases if pos < |buf| then |buf| - pos else 0
  {
    var d := DecodeFrame(buf, pos);
    if pos < |buf| && d.Ok? {
      DecodedIsCanonical(buf, pos);
      DecodedFramesAreReadable(buf, d.pos);
      if DecodeFrames(buf, d.pos).Some? {
        ReadableFront(d.value, DecodeFrames(buf, d.pos).value);
      }
    }
  }

  /** A normal form: any bytes that decode at all decode to a value that encodes and then
      decodes to itself, even where the original bytes held bits that are ignored. */
  lemma DecodedReadsBack(buf: bytes)
    requires DecodeFrameSet(buf).Some?
    ensures SetEncodable(DecodeFrameSet(buf).value) && SetCanonical(DecodeFrameSet(buf).value)
    ensures DecodeFrameSet(EncodeFrameSet(DecodeFrameSet(buf).value)) == DecodeFrameSet(buf)
  {
    var s := DecodeFrameSet(buf).value;
    ReadBounds(buf, 1);
    DecodedFramesAreReadable(buf, 4);
    assert DecodeFrames(buf, 4) == Some(s.datas);
    FrameSetReadsBack(s);
  }

  lemma {:induction false} EncodeFramesLength(frames: seq<Frame>)
    requires forall i :: 0 <= i < |frames| ==> Encodable(frames[i])
    ensures |EncodeFrames(frames)| == TotalLength(frames)
  {
    if frames != [] {
      EncodeFramesLength(frames[..|frames| - 1]);
      EncodedLength(frames[|frames| - 1]);
    }
  }

  /** A frame set takes four bytes and what the sender budgets for its frames. */
  lemma FrameSetLength(s: FrameSet)
    requires SetEncodable(s)
    ensures |EncodeFrameSet(s)| == 4 + TotalLength(s.datas)
  {
    EncodeFramesLength(s.datas);
  }

  /** Exactly which frame sets survive the wire unchanged. */
  lemma FrameSetRoundTripIff(s: FrameSet)
    requires SetEncodable(s)
    ensures DecodeFrameSet(EncodeFrameSet(s)) == Some(s) <==> SetCanonical(s)
  {
    if SetCanonical(s) {
      FrameSetReadsBack(s);
    } else if DecodeFrameSet(EncodeFrameSet(s)).Some? {
      DecodedReadsBack(EncodeFrameSet(s));
    }
  }
}

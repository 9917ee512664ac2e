/** The wire format of ACKs and NACKs: one record, one range of sequence numbers. */
module AckCodec {
  import opened Frames
  import opened Wire
  import opened AckQueues

  const ACK_ID: byte := 0xc0
  const NACK_ID: byte := 0xa0

  datatype Record = Record(recordCount: nat, maxEqualsMin: bool, sequences: Range) {
    /** The numbers of the range, first to last. */
    function GetAll(): seq<nat> {
      Numbers(sequences)
    }
  }

  function NewRecord(sequences: Range): Record {
    Record(1, sequences.0 == sequences.1, sequences)
  }

  /** A record that can be written: a number of more than 24 bits stops the program. */
  predicate Writable(r: Record) {
    r.recordCount < 0x1_0000 && r.sequences.0 < 0x100_0000 && (!r.maxEqualsMin ==> r.sequences.1 < 0x100_0000)
  }

  function EncodeRecord(r: Record): bytes
    requires Writable(r)
  {
    U16Big(r.recordCount) + ([if r.maxEqualsMin then 1 else 0]
      + (U24Little(r.sequences.0) + if r.maxEqualsMin then [] else U24Little(r.sequences.1)))
  }

  function DecodeRecord(buf: bytes): Option<Record> {
    match ReadU16Big(buf, 0)
    case Err => None
    case Ok(count, p) =>
      match ReadU8(buf, p)
      case Err => None
      case Ok(flag, p) =>
        match ReadU24Little(buf, p)
        case Err => None
        case Ok(low, p) =>
          if flag != 0 then Some(Record(count, true, (low, low)))
          else
            match ReadU24Little(buf, p)
            case Err => None
            case Ok(high, p) => Some(Record(count, false, (low, high)))
  }

  /** A packet: its id, then its body. */
  function EncodePacket(id: byte, r: Record): bytes
    requires Writable(r)
  {
    [id] + EncodeRecord(r)
  }

  /** The id is skipped, whatever it is; an empty packet stops the program. */
  function DecodePacket(buf: bytes): Option<Record>
    requires buf != []
  {
    DecodeRecord(buf[1..])
  }

  method WriteRecord(r: Record, cursor: Writer)
    requires Writable(r)
    modifies cursor
    ensures cursor.inner == old(cursor.inner) + EncodeRecord(r)
  {
    cursor.WriteShort(r.recordCount);
    cursor.WriteByte(if r.maxEqualsMin then 1 else 0);
    cursor.WriteTriad(r.sequences.0);
    if !r.maxEqualsMin {
      cursor.WriteTriad(r.sequences.1);
    }
  }

  method ReadRecord(payload: bytes) returns (r: Option<Record>)
    ensures r == DecodeRecord(payload)
  {
    var cursor := new Reader(payload);
    var count := cursor.ReadShort();
    if count.None? { return None; }
    var flag := cursor.ReadByte();
    if flag.None? { return None; }
    var low := cursor.ReadTriad();
    if low.None? { return None; }
    if flag.value != 0 {
      r := Some(Record(count.value, true, (low.value, low.value)));
    } else {
      var high := cursor.ReadTriad();
      if high.None? { return None; }
      r := Some(Record(count.value, false, (low.value, high.value)));
    }
  }

  method Packet(id: byte, sequences: Range) returns (out: bytes)
    requires Writable(NewRecord(sequences))
    ensures out == EncodePacket(id, NewRecord(sequences))
  {
    var cursor := new Writer([]);
    cursor.WriteByte(id);
    WriteRecord(NewRecord(sequences), cursor);
    out := cursor.inner;
  }

  /** A range of 24-bit numbers survives the wire, and reads out as the numbers it named. */
  lemma PacketReadsBack(id: byte, sequences: Range)
    requires sequences.0 < 0x100_0000 && sequences.1 < 0x100_0000
    ensures DecodePacket(EncodePacket(id, NewRecord(sequences))) == Some(NewRecord(sequences))
  {
    var r := NewRecord(sequences);
    var buf := EncodeRecord(r);
    assert EncodePacket(id, r)[1..] == buf;
    var tail := if r.maxEqualsMin then [] else U24Little(sequences.1);
    var flag: byte := if r.maxEqualsMin then 1 else 0;
    AtSplit(buf, 0, U16Big(1), [flag] + (U24Little(sequences.0) + tail));
    AtSplit(buf, 2, [flag], U24Little(sequences.0) + tail);
    AtSplit(buf, 3, U24Little(sequences.0), tail);
    ReadBack16(buf, 0, 1);
    assert buf[2..3] == [flag];
    ReadBack24(buf, 3, sequences.0);
    if !r.maxEqualsMin { ReadBack24(buf, 6, sequences.1); }
  }

  /** Which handler a datagram goes to, by the flags of its first byte. */
  datatype Route = ToAck | ToNack | ToDatagram | Dropped

  function RouteOf(header: byte): Route {
    if header / ACK_FLAG % 2 != 0 then ToAck
    else if header / NACK_FLAG % 2 != 0 then ToNack
    else if header / DATAGRAM_FLAG % 2 != 0 then ToDatagram
    else Dropped
  }

  /** Each kind of datagram a session sends reaches the handler for its kind. */
  lemma RoutesAreRight()
    ensures RouteOf(ACK_ID) == ToAck && RouteOf(NACK_ID) == ToNack
    ensures RouteOf(DATAGRAM_FLAG + NEEDS_B_AND_AS_FLAG) == ToDatagram
    ensures RouteOf(DATAGRAM_FLAG + NEEDS_B_AND_AS_FLAG + CONTINUOUS_SEND_FLAG) == ToDatagram
  {
  }
}

/** Integers on the wire, the cursor that reads them and the buffer that collects them. */
module Wire {
  import opened Frames

  /** What a read yields: a value and the position after it, or an error. */
  datatype Parsed<+T> = Ok(value: T, pos: nat) | Err {
    predicate IsFailure() {
      Err?
    }

    function PropagateFailure<U>(): Parsed<U>
      requires Err?
    {
      Err
    }

    function Extract(): (T, nat)
      requires Ok?
    {
      (value, pos)
    }

    function ToOption(): Option<T> {
      if Ok? then Some(value) else None
    }
  }

  datatype Option<+T> = None | Some(value: T)

  function U16Big(n: nat): bytes
    requires n < 0x1_0000
  {
    [n / 0x100, n % 0x100]
  }

  function U24Little(n: nat): bytes
    requires n < 0x100_0000
  {
    [n % 0x100, n / 0x100 % 0x100, n / 0x1_0000]
  }

  function U32Big(n: nat): bytes
    requires n < 0x1_0000_0000
  {
    U16Big(n / 0x1_0000) + U16Big(n % 0x1_0000)
  }

  function ShortOf(b: bytes): nat
    requires |b| == 2
  {
    b[0] as int * 0x100 + b[1] as int
  }

  function TriadOf(b: bytes): nat
    requires |b| == 3
  {
    b[0] as int + b[1] as int * 0x100 + b[2] as int * 0x1_0000
  }

  function IntOf(b: bytes): nat
    requires |b| == 4
  {
    (b[0] as int * 0x100 + b[1] as int) * 0x1_0000 + b[2] as int * 0x100 + b[3] as int
  }

  /** A read of no bytes succeeds even when the cursor has been moved past the end. */
  function ReadBytes(buf: bytes, pos: nat, n: nat): Parsed<bytes> {
    if n == 0 then Ok([], pos)
    else if pos + n <= |buf| then Ok(buf[pos..pos + n], pos + n)
    else Err
  }

  function ReadU8(buf: bytes, pos: nat): Parsed<byte> {
    var (b, p) :- ReadBytes(buf, pos, 1);
    Ok(b[0], p)
  }

  function ReadU16Big(buf: bytes, pos: nat): Parsed<nat> {
    var (b, p) :- ReadBytes(buf, pos, 2);
    Ok(ShortOf(b), p)
  }

  function ReadU24Little(buf: bytes, pos: nat): Parsed<nat> {
    var (b, p) :- ReadBytes(buf, pos, 3);
    Ok(TriadOf(b), p)
  }

  function ReadU32Big(buf: bytes, pos: nat): Parsed<nat> {
    var (b, p) :- ReadBytes(buf, pos, 4);
    Ok(IntOf(b), p)
  }

  class Reader {
    const buf: bytes
    var pos: nat

    constructor (buf: bytes)
      ensures this.buf == buf && pos == 0
    {
      this.buf := buf;
      pos := 0;
    }

    method Read(n: nat) returns (r: Option<bytes>)
      modifies this
      ensures r == ReadBytes(buf, old(pos), n).ToOption()
      ensures r.Some? ==> pos == ReadBytes(buf, old(pos), n).pos
    {
      if n == 0 {
        r := Some([]);
      } else if pos + n <= |buf| {
        r := Some(buf[pos..pos + n]);
        pos := pos + n;
      } else {
        r := None;
      }
    }

    method ReadByte() returns (r: Option<byte>)
      modifies this
      ensures r == ReadU8(buf, old(pos)).ToOption()
      ensures r.Some? ==> pos == ReadU8(buf, old(pos)).pos
    {
      var b := Read(1);
      r := if b.Some? then Some(b.value[0]) else None;
    }

    method ReadShort() returns (r: Option<nat>)
      modifies this
      ensures r == ReadU16Big(buf, old(pos)).ToOption()
      ensures r.Some? ==> pos == ReadU16Big(buf, old(pos)).pos
    {
      var b := Read(2);
      r := if b.Some? then Some(ShortOf(b.value)) else None;
    }

    method ReadTriad() returns (r: Option<nat>)
      modifies this
      ensures r == ReadU24Little(buf, old(pos)).ToOption()
      ensures r.Some? ==> pos == ReadU24Little(buf, old(pos)).pos
    {
      var b := Read(3);
      r := if b.Some? then Some(TriadOf(b.value)) else None;
    }

    method ReadInt() returns (r: Option<nat>)
      modifies this
      ensures r == ReadU32Big(buf, old(pos)).ToOption()
      ensures r.Some? ==> pos == ReadU32Big(buf, old(pos)).pos
    {
      var b := Read(4);
      r := if b.Some? then Some(IntOf(b.value)) else None;
    }

    /** Nothing stops the cursor at the end of the buffer. */
    method Next(n: nat)
      modifies this
      ensures pos == old(pos) + n
    {
      pos := pos + n;
    }
  }

  class Writer {
    var inner: bytes

    constructor (inner: bytes)
      ensures this.inner == inner
    {
      this.inner := inner;
    }

    method Write(v: bytes)
      modifies this
      ensures inner == old(inner) + v
    {
      inner := inner + v;
    }

    method WriteByte(v: byte)
      modifies this
      ensures inner == old(inner) + [v]
    {
      inner := inner + [v];
    }

    method WriteShort(v: nat)
      requires v < 0x1_0000
      modifies this
      ensures inner == old(inner) + U16Big(v)
    {
      inner := inner + [v / 0x100, v % 0x100];
    }

    /** A value of more than 24 bits stops the program. */
    method WriteTriad(v: nat)
      requires v < 0x100_0000
      modifies this
      ensures inner == old(inner) + U24Little(v)
    {
      inner := inner + [v % 0x100, v / 0x100 % 0x100, v / 0x1_0000];
    }

    method WriteInt(v: nat)
      requires v < 0x1_0000_0000
      modifies this
      ensures inner == old(inner) + U32Big(v)
    {
      WriteShort(v / 0x1_0000);
      WriteShort(v % 0x1_0000);
    }
  }

  /** `e` stands in `buf` at position `pos`. */
  ghost predicate At(buf: bytes, pos: nat, e: bytes) {
    pos + |e| <= |buf| && buf[pos..pos + |e|] == e
  }

  lemma AtSplit(buf: bytes, pos: nat, a: bytes, b: bytes)
    requires At(buf, pos, a + b)
    ensures At(buf, pos, a) && At(buf, pos + |a|, b)
  {
    var s := buf[pos..pos + |a + b|];
    assert s[..|a|] == a && s[|a|..] == b;
  }

  lemma ReadBack16(buf: bytes, pos: nat, n: nat)
    requires n < 0x1_0000 && At(buf, pos, U16Big(n))
    ensures ReadU16Big(buf, pos) == Ok(n, pos + 2)
  {
    assert buf[pos..pos + 2] == U16Big(n);
  }

  lemma ReadBack24(buf: bytes, pos: nat, n: nat)
    requires n < 0x100_0000 && At(buf, pos, U24Little(n))
    ensures ReadU24Little(buf, pos) == Ok(n, pos + 3)
  {
    assert buf[pos..pos + 3] == U24Little(n);
  }

  lemma ReadBack32(buf: bytes, pos: nat, n: nat)
    requires n < 0x1_0000_0000 && At(buf, pos, U32Big(n))
    ensures ReadU32Big(buf, pos) == Ok(n, pos + 4)
  {
  }

  lemma ReadBackBytes(buf: bytes, pos: nat, e: bytes)
    requires At(buf, pos, e)
    ensures ReadBytes(buf, pos, |e|) == Ok(e, pos + |e|)
  {
  }
}

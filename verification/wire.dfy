/** Primitive wire encodings of java.io.DataOutputStream / DataInputStream as
    used by the key-value store: big-endian int32, writeUTF / readUTF (strings
    are treated as byte sequences), booleans and raw byte arrays.

    Writing is modelled as a sequence of `Field`s written in order: a field
    that cannot be written (an over-long UTF string) stops the writes, but the
    fields before it have already been emitted.  Reading is modelled by
    decoders that take the unread bytes and return the value and the rest. */
module Wire {

  type byte = b: int | 0 <= b < 0x100

  const MAX_INT32: int := 0x7FFF_FFFF
  const MAX_UTF: int := 0xFFFF

  type int32 = n: int | -0x8000_0000 <= n <= 0x7FFF_FFFF

  /** A Java byte[]: its length is a non-negative int. */
  type ByteArray = s: seq<byte> | |s| <= 0x7FFF_FFFF

  /** A Java String, taken as the bytes writeUTF would emit for it. */
  type Str = seq<byte>

  /** The exceptions the streams raise. */
  datatype Error =
    | EndOfStream          // EOFException: fewer bytes than a read needs
    | NegativeArraySize    // `new byte[length]` with a negative length
    | UtfTooLong           // UTFDataFormatException: encoded string over 65535 bytes
    | UnknownRequestType   // IOException("Unknown request type")

  datatype Option<+T> = None | Some(value: T)

  datatype Result<+T> = Ok(value: T) | Err(error: Error) {
    predicate IsFailure() { Err? }
    function PropagateFailure<U>(): Result<U> requires Err? { Err(error) }
    function Extract(): T requires Ok? { value }
  }

  /** A decoded value and the bytes left after it. */
  datatype Read<+T> = Read(value: T, rest: seq<byte>)

  // ---------------------------------------------------------------------
  // int32, big-endian two's complement (writeInt / readInt)

  function Int32Bytes(n: int32): (r: seq<byte>)
    ensures |r| == 4
  {
    var u := if n < 0 then n + 0x1_0000_0000 else n;
    [u / 0x100_0000, (u / 0x1_0000) % 0x100, (u / 0x100) % 0x100, u % 0x100]
  }

  function Int32Of(b0: byte, b1: byte, b2: byte, b3: byte): int32 {
    var u := b0 as int * 0x100_0000 + b1 as int * 0x1_0000 + b2 as int * 0x100 + b3 as int;
    if u >= 0x8000_0000 then u - 0x1_0000_0000 else u
  }

  lemma Int32RoundTrip(n: int32)
    ensures var b := Int32Bytes(n); Int32Of(b[0], b[1], b[2], b[3]) == n
  {
    var u := if n < 0 then n + 0x1_0000_0000 else n;
    var q1 := u / 0x100;
    var q2 := u / 0x1_0000;
    assert u == q1 * 0x100 + u % 0x100;
    assert q1 / 0x100 == q2;
    assert q1 == q2 * 0x100 + q1 % 0x100;
    assert q2 / 0x100 == u / 0x100_0000;
    assert q2 == (u / 0x100_0000) * 0x100 + q2 % 0x100;
  }

  /** The first byte of a non-negative int32 is below 0x80, so the sign of
      a decoded int32 is visible in its first byte. */
  lemma Int32Sign(b0: byte, b1: byte, b2: byte, b3: byte)
    ensures Int32Of(b0, b1, b2, b3) < 0 <==> b0 >= 0x80
  {
  }

  function ReadInt(s: seq<byte>): (r: Result<Read<int32>>)
    ensures r.Err? <==> |s| < 4
    ensures r.Err? ==> r.error == EndOfStream
    ensures r.Ok? ==> r.value.rest == s[4..]
  {
    if |s| < 4 then Err(EndOfStream)
    else Ok(Read(Int32Of(s[0], s[1], s[2], s[3]), s[4..]))
  }

  lemma ReadIntAfterWrite(n: int32, rest: seq<byte>)
    ensures ReadInt(Int32Bytes(n) + rest) == Ok(Read(n, rest))
  {
    var s := Int32Bytes(n) + rest;
    Int32RoundTrip(n);
    assert s[4..] == rest;
  }

  /** Reading an int32 from a prefix of its encoding: fewer than four bytes
      is the end of the stream, otherwise the value is read as written. */
  lemma ReadIntPrefix(n: int32, more: seq<byte>, k: nat)
    requires k <= 4 + |more|
    ensures (Int32Bytes(n) + more)[..k] == if k < 4 then Int32Bytes(n)[..k] else Int32Bytes(n) + more[..k - 4]
    ensures ReadInt((Int32Bytes(n) + more)[..k]) == if k < 4 then Err(EndOfStream) else Ok(Read(n, more[..k - 4]))
  {
    if k >= 4 {
      assert (Int32Bytes(n) + more)[..k] == Int32Bytes(n) + more[..k - 4];
      ReadIntAfterWrite(n, more[..k - 4]);
    }
  }

  // ---------------------------------------------------------------------
  // writeUTF / readUTF: unsigned 16-bit big-endian length, then the bytes

  function U16Bytes(n: nat): (r: seq<byte>)
    requires n <= MAX_UTF
    ensures |r| == 2 && r[0] as int * 0x100 + r[1] == n
  {
    [n / 0x100, n % 0x100]
  }

  function ReadUTF(s: seq<byte>): (r: Result<Read<Str>>)
    ensures r.Err? ==> r.error == EndOfStream
    ensures r.Ok? ==> |r.value.value| <= MAX_UTF
  {
    if |s| < 2 then Err(EndOfStream)
    else
      var len := s[0] as int * 0x100 + s[1];
      if |s| - 2 < len then Err(EndOfStream)
      else Ok(Read(s[2..2 + len], s[2 + len..]))
  }

  lemma ReadUTFAfterWrite(str: Str, rest: seq<byte>)
    requires |str| <= MAX_UTF
    ensures ReadUTF(U16Bytes(|str|) + str + rest) == Ok(Read(str, rest))
  {
    var s := U16Bytes(|str|) + str + rest;
    assert s[2..2 + |str|] == str;
    assert s[2 + |str|..] == rest;
  }

  /** Reading a string from a prefix of its encoding: a prefix that stops
      inside the string is the end of the stream. */
  lemma ReadUTFPrefix(str: Str, more: seq<byte>, k: nat)
    requires |str| <= MAX_UTF && k <= 2 + |str| + |more|
    ensures ReadUTF((U16Bytes(|str|) + str + more)[..k]) ==
      if k < 2 + |str| then Err(EndOfStream) else Ok(Read(str, more[..k - 2 - |str|]))
  {
    var u := U16Bytes(|str|);
    var p := (u + str + more)[..k];
    if k >= 2 + |str| {
      assert p == u + str + more[..k - 2 - |str|];
      ReadUTFAfterWrite(str, more[..k - 2 - |str|]);
    } else if k >= 2 {
      assert p[0] == u[0] && p[1] == u[1];
    }
  }

  // ---------------------------------------------------------------------
  // `new byte[length]` followed by readFully

  function ReadBytes(s: seq<byte>, length: int32): (r: Result<Read<ByteArray>>)
    ensures r.Err? <==> length < 0 || |s| < length
    ensures r.Err? ==> r.error == (if length < 0 then NegativeArraySize else EndOfStream)
    ensures r.Ok? ==> |r.value.value| == length
  {
    if length < 0 then Err(NegativeArraySize)
    else if |s| < length then Err(EndOfStream)
    else Ok(Read(s[..length], s[length..]))
  }

  // ---------------------------------------------------------------------
  // writeBoolean / readBoolean: one byte, zero is false

  function BoolByte(b: bool): byte {
    if b then 1 else 0
  }

  function ReadBoolean(s: seq<byte>): (r: Result<Read<bool>>)
    ensures r.Err? <==> s == []
    ensures r.Err? ==> r.error == EndOfStream
    ensures r.Ok? ==> r.value.value == (s[0] != 0) && r.value.rest == s[1..]
  {
    if |s| < 1 then Err(EndOfStream) else Ok(Read(s[0] != 0, s[1..]))
  }

  // ---------------------------------------------------------------------
  // Writing

  /** One call on a DataOutputStream. */
  datatype Field =
    | IntField(n: int32)          // writeInt
    | UtfField(str: Str)          // writeUTF
    | BoolField(flag: bool)       // writeBoolean
    | RawField(raw: seq<byte>)    // write(byte[])

  /** writeUTF refuses a string whose encoding is longer than 65535 bytes;
      every other write succeeds. */
  predicate Writable(f: Field) {
    !f.UtfField? || |f.str| <= MAX_UTF
  }

  function FieldBytes(f: Field): (r: seq<byte>)
    requires Writable(f)
    ensures f.IntField? ==> |r| == 4
    ensures f.UtfField? ==> |r| == 2 + |f.str|
    ensures f.BoolField? ==> |r| == 1
    ensures f.RawField? ==> r == f.raw
  {
    match f
    case IntField(n) => Int32Bytes(n)
    case UtfField(str) => U16Bytes(|str|) + str
    case BoolField(b) => [BoolByte(b)]
    case RawField(raw) => raw
  }

  /** What a sequence of writes leaves on the stream, and whether one of them threw. */
  datatype Written = Written(bytes: seq<byte>, failed: bool)

  function Write(fs: seq<Field>): Written
    decreases |fs|
  {
    if fs == [] then Written([], false)
    else if !Writable(fs[0]) then Written([], true)
    else
      var w := Write(fs[1..]);
      Written(FieldBytes(fs[0]) + w.bytes, w.failed)
  }

  /** Writing two lists of fields one after the other: the second list is
      written only if the first did not throw. */
  lemma {:induction false} WriteAppend(a: seq<Field>, b: seq<Field>)
    ensures Write(a + b) ==
      if Write(a).failed then Write(a)
      else Written(Write(a).bytes + Write(b).bytes, Write(b).failed)
    decreases |a|
  {
    if a == [] {
      assert a + b == b;
    } else {
      assert (a + b)[0] == a[0];
      assert (a + b)[1..] == a[1..] + b;
      if Writable(a[0]) {
        WriteAppend(a[1..], b);
      }
    }
  }

  /** A single write emits its field, or throws and emits nothing. */
  lemma WriteSingle(f: Field)
    ensures Write([f]) == if Writable(f) then Written(FieldBytes(f), false) else Written([], true)
  {
    assert Write([f][1..]) == Written([], false);
  }
}

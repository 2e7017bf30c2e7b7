/** Common/Frame.java: an immutable (tag, string, data) message and its
    byte encoding: int32 tag, writeUTF string, int32 data length, data. */
module FrameCodec {
  import opened Wire

  datatype Frame = Frame(tag: int32, stringInput: Str, data: ByteArray)

  /** The four writes `serialize` performs, in order. */
  function Fields(f: Frame): seq<Field> {
    [IntField(f.tag), UtfField(f.stringInput), IntField(|f.data|), RawField(f.data)]
  }

  function Serialize(f: Frame): Written {
    Write(Fields(f))
  }

  function Deserialize(s: seq<byte>): (r: Result<Read<Frame>>)
    ensures r.Ok? ==> |r.value.rest| <= |s| - 10
  {
    match ReadInt(s)
    case Err(e) => Err(e)
    case Ok(tag) =>
      match ReadUTF(tag.rest)
      case Err(e) => Err(e)
      case Ok(str) =>
        match ReadInt(str.rest)
        case Err(e) => Err(e)
        case Ok(length) =>
          match ReadBytes(length.rest, length.value)
          case Err(e) => Err(e)
          case Ok(data) => Ok(Read(Frame(tag.value, str.value, data.value), data.rest))
  }

  /** The header bytes of a frame: everything before the data. */
  function Header(tag: int32, str: Str, length: int32): seq<byte>
    requires |str| <= MAX_UTF
  {
    Int32Bytes(tag) + U16Bytes(|str|) + str + Int32Bytes(length)
  }

  /** serialize emits the tag, the UTF length and string bytes, the data
      length and the data, in that order; it throws exactly when the string
      is longer than 65535 bytes, and then only the tag has been written. */
  lemma SerializeLayout(f: Frame)
    ensures Serialize(f).failed <==> |f.stringInput| > MAX_UTF
    ensures Serialize(f).failed ==> Serialize(f).bytes == Int32Bytes(f.tag)
    ensures !Serialize(f).failed ==>
      Serialize(f).bytes == Header(f.tag, f.stringInput, |f.data|) + f.data
  {
    var fs := Fields(f);
    var w3 := Write(fs[3..]);
    var w2 := Write(fs[2..]);
    assert fs[3..][1..] == [] && fs[2..][1..] == fs[3..] && fs[1..][1..] == fs[2..];
    assert fs[3..] == [fs[3]];
    WriteSingle(fs[3]);
    assert w2 == Written(Int32Bytes(|f.data|) + f.data, false);
    if |f.stringInput| <= MAX_UTF {
      assert Write(fs[1..]) == Written(U16Bytes(|f.stringInput|) + f.stringInput + w2.bytes, false);
    } else {
      assert Write(fs[1..]) == Written([], true);
    }
  }

  /** A serialized frame takes 4 + 2 + |string| + 4 + |data| bytes. */
  lemma SerializedSize(f: Frame)
    requires |f.stringInput| <= MAX_UTF
    ensures |Serialize(f).bytes| == 10 + |f.stringInput| + |f.data|
  {
    SerializeLayout(f);
  }

  /** Reading a header gives back its three fields. */
  lemma ReadHeader(tag: int32, str: Str, length: int32, more: seq<byte>)
    requires |str| <= MAX_UTF
    ensures var h := Header(tag, str, length) + more;
      && ReadInt(h) == Ok(Read(tag, U16Bytes(|str|) + str + Int32Bytes(length) + more))
      && ReadUTF(U16Bytes(|str|) + str + Int32Bytes(length) + more) == Ok(Read(str, Int32Bytes(length) + more))
      && ReadInt(Int32Bytes(length) + more) == Ok(Read(length, more))
  {
    var u := U16Bytes(|str|);
    assert Header(tag, str, length) + more == Int32Bytes(tag) + (u + str + Int32Bytes(length) + more);
    ReadIntAfterWrite(tag, u + str + Int32Bytes(length) + more);
    assert u + str + Int32Bytes(length) + more == u + str + (Int32Bytes(length) + more);
    ReadUTFAfterWrite(str, Int32Bytes(length) + more);
    ReadIntAfterWrite(length, more);
  }

  /** deserialize(serialize(f)) gives back f and consumes exactly the bytes written. */
  lemma RoundTrip(f: Frame, rest: seq<byte>)
    requires !Serialize(f).failed
    ensures Deserialize(Serialize(f).bytes + rest) == Ok(Read(f, rest))
  {
    SerializeLayout(f);
    var str := f.stringInput;
    var s := Serialize(f).bytes + rest;
    assert s == Header(f.tag, str, |f.data|) + (f.data + rest);
    ReadHeader(f.tag, str, |f.data|, f.data + rest);
    assert (f.data + rest)[..|f.data|] == f.data;
    assert (f.data + rest)[|f.data|..] == rest;
  }

  /** A frame whose header declares a negative data length is refused,
      whatever follows the header. */
  lemma NegativeLengthFails(tag: int32, str: Str, length: int32, more: seq<byte>)
    requires |str| <= MAX_UTF && length < 0
    ensures Deserialize(Header(tag, str, length) + more) == Err(NegativeArraySize)
  {
    ReadHeader(tag, str, length, more);
  }

  /** A frame whose header declares more data bytes than remain is refused. */
  lemma ShortDataFails(tag: int32, str: Str, length: int32, more: seq<byte>)
    requires |str| <= MAX_UTF && 0 <= |more| < length
    ensures Deserialize(Header(tag, str, length) + more) == Err(EndOfStream)
  {
    ReadHeader(tag, str, length, more);
  }

  /** Every proper prefix of a serialized frame is refused as truncated. */
  lemma TruncatedFails(f: Frame, k: nat)
    requires !Serialize(f).failed && k < |Serialize(f).bytes|
    ensures Deserialize(Serialize(f).bytes[..k]) == Err(EndOfStream)
  {
    SerializeLayout(f);
    var str, data := f.stringInput, f.data;
    assert Serialize(f).bytes == Int32Bytes(f.tag) + (U16Bytes(|str|) + str + (Int32Bytes(|data|) + data));
    TruncatedEncodingFails(f.tag, str, data, k);
  }

  lemma TruncatedEncodingFails(tag: int32, str: Str, data: ByteArray, k: nat)
    requires |str| <= MAX_UTF && k < 10 + |str| + |data|
    ensures Deserialize((Int32Bytes(tag) + (U16Bytes(|str|) + str + (Int32Bytes(|data|) + data)))[..k]) == Err(EndOfStream)
  {
    var afterStr := Int32Bytes(|data|) + data;
    var afterTag := U16Bytes(|str|) + str + afterStr;
    ReadIntPrefix(tag, afterTag, k);
    if k >= 4 {
      ReadUTFPrefix(str, afterStr, k - 4);
      if k >= 6 + |str| {
        ReadIntPrefix(|data|, data, k - 6 - |str|);
      }
    }
  }
}

/** Common/FrameList.java: a list of frames, encoded as an int32 count
    followed by each frame in list order. */
module FrameListCodec {
  import opened Wire
  import FrameCodec

  type Frame = FrameCodec.Frame

  /** The writes of every frame of `fs`, in list order. */
  function FramesFields(fs: seq<Frame>): seq<Field>
    decreases |fs|
  {
    if fs == [] then [] else FramesFields(fs[..|fs| - 1]) + FrameCodec.Fields(fs[|fs| - 1])
  }

  /** serialize: the element count, then each frame. */
  function Serialize(fs: seq<Frame>): Written
    requires |fs| <= MAX_INT32
  {
    Write([IntField(|fs|)] + FramesFields(fs))
  }

  /** The bytes of each frame serialized on its own, concatenated in list order. */
  function FramesBytes(fs: seq<Frame>): seq<byte>
    decreases |fs|
  {
    if fs == [] then [] else FramesBytes(fs[..|fs| - 1]) + FrameCodec.Serialize(fs[|fs| - 1]).bytes
  }

  predicate AllSerializable(fs: seq<Frame>) {
    forall i | 0 <= i < |fs| :: |fs[i].stringInput| <= MAX_UTF
  }

  lemma {:induction false} FramesFieldsWrite(fs: seq<Frame>)
    ensures Write(FramesFields(fs)).failed <==> !AllSerializable(fs)
    ensures AllSerializable(fs) ==> Write(FramesFields(fs)).bytes == FramesBytes(fs)
    decreases |fs|
  {
    if fs != [] {
      var init, last := fs[..|fs| - 1], fs[|fs| - 1];
      FramesFieldsWrite(init);
      WriteAppend(FramesFields(init), FrameCodec.Fields(last));
      FrameCodec.SerializeLayout(last);
      assert forall i | 0 <= i < |init| :: init[i] == fs[i];
    }
  }

  /** serialize writes the count and then every frame in list order; it
      throws exactly when one of the frames cannot be written. */
  lemma SerializeLayout(fs: seq<Frame>)
    requires |fs| <= MAX_INT32
    ensures Serialize(fs).failed <==> !AllSerializable(fs)
    ensures !Serialize(fs).failed ==> Serialize(fs).bytes == Int32Bytes(|fs|) + FramesBytes(fs)
  {
    WriteAppend([IntField(|fs|)], FramesFields(fs));
    WriteSingle(IntField(|fs|));
    FramesFieldsWrite(fs);
  }

  /** The empty list is written as exactly the four bytes of the count 0. */
  lemma EmptyListIsFourBytes()
    ensures Serialize([]) == Written([0, 0, 0, 0], false)
  {
    SerializeLayout([]);
  }

  /** The `n` frames read one after another from `s`, in stream order. */
  function DecodeFrames(s: seq<byte>, n: nat): (r: Result<Read<seq<Frame>>>)
    ensures r.Ok? ==> |r.value.value| == n
    decreases n
  {
    if n == 0 then Ok(Read([], s))
    else
      match DecodeFrames(s, n - 1)
      case Err(e) => Err(e)
      case Ok(prev) => ReadNext(prev)
  }

  /** One more iteration: read a frame after those already read and add it at the end. */
  function ReadNext(prev: Read<seq<Frame>>): (r: Result<Read<seq<Frame>>>)
    ensures r.Ok? ==> |r.value.value| == |prev.value| + 1
  {
    var f :- FrameCodec.Deserialize(prev.rest);
    Ok(Read(prev.value + [f.value], f.rest))
  }

  /** deserialize, as a function of the input: the count, then that many
      frames; the Java loop runs no iteration for a count that is not positive. */
  function Decode(s: seq<byte>): (r: Result<Read<seq<Frame>>>) {
    var size :- ReadInt(s);
    DecodeFrames(size.rest, if size.value < 0 then 0 else size.value)
  }

  lemma {:induction false} DecodeFramesError(s: seq<byte>, i: nat, n: nat)
    requires i <= n && DecodeFrames(s, i).Err?
    ensures DecodeFrames(s, n) == Err(DecodeFrames(s, i).error)
    decreases n - i
  {
    if i < n {
      DecodeFramesError(s, i, n - 1);
    }
  }

  /** Deserialize: the `for` loop of FrameList.deserialize, adding one frame per iteration. */
  method Deserialize(s: seq<byte>) returns (r: Result<Read<seq<Frame>>>)
    ensures r == Decode(s)
  {
    var size := ReadInt(s);
    if size.Err? {
      return Err(size.error);
    }
    var count: nat := if size.value.value < 0 then 0 else size.value.value;
    var frameList: seq<Frame> := [];
    var input := size.value.rest;
    for i := 0 to count
      invariant DecodeFrames(size.value.rest, i) == Ok(Read(frameList, input))
    {
      var f := FrameCodec.Deserialize(input);
      if f.Err? {
        DecodeFramesError(size.value.rest, i + 1, count);
        return Err(f.error);
      }
      frameList := frameList + [f.value.value];
      input := f.value.rest;
    }
    return Ok(Read(frameList, input));
  }

  /** Reading one more frame extends the frames read so far. */
  lemma DecodeFramesSnoc(s: seq<byte>, n: nat, prev: seq<Frame>, mid: seq<byte>, f: Frame, rest: seq<byte>)
    requires n > 0
    requires DecodeFrames(s, n - 1) == Ok(Read(prev, mid))
    requires FrameCodec.Deserialize(mid) == Ok(Read(f, rest))
    ensures DecodeFrames(s, n) == Ok(Read(prev + [f], rest))
  {
  }

  lemma DecodeFramesSnocBytes(a: seq<byte>, lastBytes: seq<byte>, rest: seq<byte>, n: nat, init: seq<Frame>, last: Frame)
    requires n > 0
    requires DecodeFrames(a + (lastBytes + rest), n - 1) == Ok(Read(init, lastBytes + rest))
    requires FrameCodec.Deserialize(lastBytes + rest) == Ok(Read(last, rest))
    ensures DecodeFrames((a + lastBytes) + rest, n) == Ok(Read(init + [last], rest))
  {
    assert (a + lastBytes) + rest == a + (lastBytes + rest);
    DecodeFramesSnoc(a + (lastBytes + rest), n, init, lastBytes + rest, last, rest);
  }

  lemma {:induction false} DecodeFramesBytes(fs: seq<Frame>, rest: seq<byte>)
    requires AllSerializable(fs)
    ensures DecodeFrames(FramesBytes(fs) + rest, |fs|) == Ok(Read(fs, rest))
    decreases |fs|
  {
    if fs == [] {
      assert FramesBytes(fs) + rest == rest;
    } else {
      var init, last := fs[..|fs| - 1], fs[|fs| - 1];
      assert init + [last] == fs;
      var lastBytes := FrameCodec.Serialize(last).bytes;
      assert DecodeFrames(FramesBytes(init) + (lastBytes + rest), |fs| - 1) == Ok(Read(init, lastBytes + rest)) by {
        assert AllSerializable(init) by {
          assert forall i | 0 <= i < |init| :: init[i] == fs[i];
        }
        DecodeFramesBytes(init, lastBytes + rest);
      }
      assert FrameCodec.Deserialize(lastBytes + rest) == Ok(Read(last, rest)) by {
        FrameCodec.SerializeLayout(last);
        FrameCodec.RoundTrip(last, rest);
      }
      assert FramesBytes(fs) == FramesBytes(init) + lastBytes;
      DecodeFramesSnocBytes(FramesBytes(init), lastBytes, rest, |fs|, init, last);
    }
  }

  /** A round trip gives back the same frames, each in its position, and
      consumes exactly the bytes written. */
  lemma RoundTrip(fs: seq<Frame>, rest: seq<byte>)
    requires |fs| <= MAX_INT32 && !Serialize(fs).failed
    ensures Decode(Serialize(fs).bytes + rest) == Ok(Read(fs, rest))
  {
    SerializeLayout(fs);
    assert Serialize(fs).bytes + rest == Int32Bytes(|fs|) + (FramesBytes(fs) + rest);
    ReadIntAfterWrite(|fs|, FramesBytes(fs) + rest);
    DecodeFramesBytes(fs, rest);
  }

  /** A count that is zero or negative yields the empty list and consumes
      only the four count bytes. */
  lemma NonPositiveCountIsEmpty(count: int32, rest: seq<byte>)
    requires count <= 0
    ensures Decode(Int32Bytes(count) + rest) == Ok(Read([], rest))
  {
    ReadIntAfterWrite(count, rest);
  }

  /** When the input holds fewer complete frames than the count declares,
      deserialize fails at the end of the stream. */
  lemma TooFewFramesFails(fs: seq<Frame>, count: int32)
    requires AllSerializable(fs) && |fs| < count
    ensures Decode(Int32Bytes(count) + FramesBytes(fs)) == Err(EndOfStream)
  {
    var body := FramesBytes(fs);
    assert body + [] == body;
    ReadIntAfterWrite(count, body);
    DecodeFramesBytes(fs, []);
    assert DecodeFrames(body, |fs| + 1).Err?;
    DecodeFramesError(body, |fs| + 1, count);
  }

  /** Every proper prefix of the frames' bytes holds fewer than all the
      frames, the last of them cut short: reading them fails at the end of
      the stream. */
  lemma {:induction false} FramesPrefixFails(fs: seq<Frame>, j: nat)
    requires AllSerializable(fs) && j < |FramesBytes(fs)|
    ensures DecodeFrames(FramesBytes(fs)[..j], |fs|) == Err(EndOfStream)
    decreases |fs|
  {
    assert fs != [];
    var init, last := fs[..|fs| - 1], fs[|fs| - 1];
    assert AllSerializable(init) by {
      assert forall i | 0 <= i < |init| :: init[i] == fs[i];
    }
    var before, lastBytes := FramesBytes(init), FrameCodec.Serialize(last).bytes;
    assert FramesBytes(fs) == before + lastBytes;
    var s := FramesBytes(fs)[..j];
    if j < |before| {
      assert s == before[..j];
      FramesPrefixFails(init, j);
      DecodeFramesError(s, |init|, |fs|);
    } else {
      var cut := lastBytes[..j - |before|];
      assert s == before + cut;
      assert DecodeFrames(s, |init|) == Ok(Read(init, cut)) by {
        assert before + cut == FramesBytes(init) + cut;
        DecodeFramesBytes(init, cut);
      }
      assert FrameCodec.Deserialize(cut) == Err(EndOfStream) by {
        FrameCodec.SerializeLayout(last);
        FrameCodec.TruncatedFails(last, j - |before|);
      }
      assert ReadNext(Read(init, cut)) == Err(EndOfStream);
    }
  }

  /** Every proper prefix of a serialized list is refused at the end of the
      stream: the count is cut short, or a frame is. */
  lemma TruncatedListFails(fs: seq<Frame>, k: nat)
    requires |fs| <= MAX_INT32 && !Serialize(fs).failed && k < |Serialize(fs).bytes|
    ensures Decode(Serialize(fs).bytes[..k]) == Err(EndOfStream)
  {
    SerializeLayout(fs);
    ReadIntPrefix(|fs|, FramesBytes(fs), k);
    if k >= 4 {
      FramesPrefixFails(fs, k - 4);
    }
  }
}

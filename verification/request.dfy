/** Common/Request.java: the request tags of the binary protocol and
    serializeMap, which encodes a map as an int32 entry count followed by
    its entries. */
module Requests {
  import opened Wire
  import opened Entries

  const AUTH: int32 := 1
  const REGISTER: int32 := 2
  const PUT: int32 := 3
  const GET: int32 := 4
  const MULTI_PUT: int32 := 5
  const MULTI_GET: int32 := 6
  const GET_WHEN: int32 := 7
  const LOGOUT: int32 := 8

  /** The eight operations of the protocol. */
  datatype Operation = Auth | Register | Put | Get | MultiPut | MultiGet | GetWhen | Logout

  /** The tag constant a request of this operation starts with. */
  function Tag(op: Operation): (t: int32)
    ensures AUTH <= t <= LOGOUT
  {
    match op
    case Auth => AUTH
    case Register => REGISTER
    case Put => PUT
    case Get => GET
    case MultiPut => MULTI_PUT
    case MultiGet => MULTI_GET
    case GetWhen => GET_WHEN
    case Logout => LOGOUT
  }

  /** The operation a tag names: the cases of the server's dispatch switch;
      any other value falls to its default branch. */
  function OperationOf(t: int32): (op: Option<Operation>)
    ensures op.Some? <==> AUTH <= t <= LOGOUT
    ensures op.Some? ==> Tag(op.value) == t
  {
    if t == AUTH then Some(Auth)
    else if t == REGISTER then Some(Register)
    else if t == PUT then Some(Put)
    else if t == GET then Some(Get)
    else if t == MULTI_PUT then Some(MultiPut)
    else if t == MULTI_GET then Some(MultiGet)
    else if t == GET_WHEN then Some(GetWhen)
    else if t == LOGOUT then Some(Logout)
    else None
  }

  /** Each operation's tag names that operation, so the eight tags are distinct. */
  lemma TagsDistinct(a: Operation, b: Operation)
    ensures OperationOf(Tag(a)) == Some(a)
    ensures Tag(a) == Tag(b) ==> a == b
  {
  }

  // ---------------------------------------------------------------------
  // serializeMap

  /** The writes of serializeMap when the map is iterated in `order`. */
  function MapFields(order: seq<Str>, m: map<Str, Option<ByteArray>>): seq<Field>
    requires |m| <= MAX_INT32 && IsOrderOf(order, m.Keys)
  {
    [IntField(|m|)] + EntriesFields(EntriesOf(order, m))
  }

  /** The bytes of a map whose keys fit, iterated in `order`: the entry
      count, then every entry. */
  function MapBytes(order: seq<Str>, m: map<Str, Option<ByteArray>>): seq<byte>
    requires |m| <= MAX_INT32 && IsOrderOf(order, m.Keys) && EntriesFit(EntriesOf(order, m))
  {
    Int32Bytes(|m|) + EntriesBytes(EntriesOf(order, m))
  }

  /** The map's writes throw exactly when a key does not fit; otherwise they
      emit the entry count, then every entry. */
  lemma MapFieldsLayout(order: seq<Str>, m: map<Str, Option<ByteArray>>)
    requires |m| <= MAX_INT32 && IsOrderOf(order, m.Keys)
    ensures EntriesFit(EntriesOf(order, m)) <==> MapFits(m)
    ensures Write(MapFields(order, m)).failed <==> !MapFits(m)
    ensures MapFits(m) ==> Write(MapFields(order, m)).bytes == MapBytes(order, m)
  {
    var es := EntriesOf(order, m);
    OrderFits(order, m);
    EntriesWrite(es);
    WriteAppend([IntField(|m|)], EntriesFields(es));
    WriteSingle(IntField(|m|));
  }

  /** serializeMap: the entry count, then every entry in HashMap iteration
      order, into a fresh buffer.  An over-long key makes writeUTF throw and
      the buffer is lost with the exception. */
  method SerializeMap(m: map<Str, Option<ByteArray>>) returns (r: Result<seq<byte>>)
    requires |m| <= MAX_INT32
    ensures r.Err? <==> !MapFits(m)
    ensures r.Err? ==> r.error == UtfTooLong
    ensures r.Ok? ==> exists order | IsOrderOf(order, m.Keys) && EntriesFit(EntriesOf(order, m)) ::
      r.value == MapBytes(order, m)
  {
    var w := WriteEntries(m);
    ghost var order :| IsOrderOf(order, m.Keys) && w == Write(EntriesFields(EntriesOf(order, m)));
    EntriesWrite(EntriesOf(order, m));
    OrderFits(order, m);
    if w.failed {
      return Err(UtfTooLong);
    }
    return Ok(Int32Bytes(|m|) + w.bytes);
  }

  /** A serialized map is read back, count first, as the same map with null
      values turned into empty arrays. */
  lemma SerializedMapReadsBack(order: seq<Str>, m: map<Str, Option<ByteArray>>, rest: seq<byte>)
    requires |m| <= MAX_INT32 && IsOrderOf(order, m.Keys) && EntriesFit(EntriesOf(order, m))
    ensures ReadInt(MapBytes(order, m) + rest) == Ok(Read(|m|, EntriesBytes(EntriesOf(order, m)) + rest))
    ensures DecodeEntries(EntriesBytes(EntriesOf(order, m)) + rest, |m|) == Ok(Read(Flatten(m), rest))
  {
    var body := EntriesBytes(EntriesOf(order, m));
    assert MapBytes(order, m) + rest == Int32Bytes(|m|) + (body + rest);
    ReadIntAfterWrite(|m|, body + rest);
    MapRoundTrip(order, m, rest);
  }

  /** The output of serializeMap is 4 + the sum over entries of
      2 + |key| + 4 + |value| bytes, a null value counting as empty. */
  lemma SerializedMapSize(order: seq<Str>, m: map<Str, Option<ByteArray>>)
    requires |m| <= MAX_INT32 && IsOrderOf(order, m.Keys) && EntriesFit(EntriesOf(order, m))
    ensures |MapBytes(order, m)| == 4 + EntriesSize(EntriesOf(order, m))
  {
    EntriesBytesSize(EntriesOf(order, m));
  }

  /** Entry lists that differ only in null values versus empty arrays are
      written identically. */
  lemma {:induction false} NullsWrittenAsEmpty(es: seq<Entry>, fs: seq<Entry>)
    requires |es| == |fs|
    requires forall i | 0 <= i < |es| :: es[i].key == fs[i].key && Flat(es[i].value) == Flat(fs[i].value)
    ensures Write(EntriesFields(es)) == Write(EntriesFields(fs))
    decreases |es|
  {
    if es != [] {
      var n := |es| - 1;
      NullsWrittenAsEmpty(es[..n], fs[..n]);
      EntryWrite(es[n]);
      EntryWrite(fs[n]);
      WriteAppend(EntriesFields(es[..n]), EntryFields(es[n]));
      WriteAppend(EntriesFields(fs[..n]), EntryFields(fs[n]));
    }
  }

  /** serializeMap writes a map holding nulls exactly as the map holding
      empty arrays in their place. */
  lemma NullValuesAsEmpty(order: seq<Str>, m: map<Str, Option<ByteArray>>)
    requires |m| <= MAX_INT32 && IsOrderOf(order, m.Keys)
    ensures Write(MapFields(order, m)) == Write(MapFields(order, Present(Flatten(m))))
  {
    var p := Present(Flatten(m));
    NullsWrittenAsEmpty(EntriesOf(order, m), EntriesOf(order, p));
    WriteAppend([IntField(|m|)], EntriesFields(EntriesOf(order, m)));
    WriteAppend([IntField(|p|)], EntriesFields(EntriesOf(order, p)));
  }
}

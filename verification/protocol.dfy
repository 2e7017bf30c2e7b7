/** The per-operation byte layouts of the binary protocol: the requests
    Client/Client.java writes, the decoders of Server/Demultiplexer.java that
    read them back, the responses the server writes and the client's
    decoders for those responses.  Each layout is a list of writes; each
    decoder takes the unread bytes. */
module Protocol {
  import opened Wire
  import opened Entries
  import opened Requests

  // ---------------------------------------------------------------------
  // Requests

  /** A request: the operation's tag, then its body. */
  function RequestFields(op: Operation, body: seq<Field>): seq<Field> {
    [IntField(Tag(op))] + body
  }

  /** Every request starts with the int32 tag of its operation, which the
      server reads back and dispatches on; the body follows, and a body that
      throws leaves the tag and what it wrote before throwing. */
  lemma RequestStartsWithTag(op: Operation, body: seq<Field>, rest: seq<byte>)
    ensures Write(RequestFields(op, body)) == Written(Int32Bytes(Tag(op)) + Write(body).bytes, Write(body).failed)
    ensures ReadInt(Write(RequestFields(op, body)).bytes + rest) == Ok(Read(Tag(op), Write(body).bytes + rest))
    ensures OperationOf(Tag(op)) == Some(op)
  {
    var fs := RequestFields(op, body);
    assert fs[0] == IntField(Tag(op)) && fs[1..] == body;
    var w := Write(body);
    assert Write(fs) == Written(Int32Bytes(Tag(op)) + w.bytes, w.failed);
    assert Int32Bytes(Tag(op)) + w.bytes + rest == Int32Bytes(Tag(op)) + (w.bytes + rest);
    ReadIntAfterWrite(Tag(op), w.bytes + rest);
    TagsDistinct(op, op);
  }

  /** The body of AUTH and REGISTER: writeUTF(username), writeUTF(password). */
  function CredentialsFields(username: Str, password: Str): seq<Field> {
    [UtfField(username), UtfField(password)]
  }

  function CredentialsBytes(username: Str, password: Str): seq<byte>
    requires |username| <= MAX_UTF && |password| <= MAX_UTF
  {
    U16Bytes(|username|) + username + (U16Bytes(|password|) + password)
  }

  /** The credentials throw when either string is too long; a password that
      is too long leaves the username on the stream. */
  lemma CredentialsLayout(username: Str, password: Str)
    ensures Write(CredentialsFields(username, password)).failed <==> |username| > MAX_UTF || |password| > MAX_UTF
    ensures |username| <= MAX_UTF < |password| ==>
      Write(CredentialsFields(username, password)).bytes == U16Bytes(|username|) + username
    ensures |username| <= MAX_UTF && |password| <= MAX_UTF ==>
      Write(CredentialsFields(username, password)).bytes == CredentialsBytes(username, password)
  {
    var fs := CredentialsFields(username, password);
    assert fs == [UtfField(username)] + [UtfField(password)];
    WriteAppend([UtfField(username)], [UtfField(password)]);
    WriteSingle(UtfField(username));
    WriteSingle(UtfField(password));
  }

  datatype Credentials = Credentials(username: Str, password: Str)

  /** handleAuth and handleRegister: readUTF username, readUTF password. */
  function ReadCredentials(s: seq<byte>): Result<Read<Credentials>> {
    match ReadUTF(s)
    case Err(e) => Err(e)
    case Ok(username) =>
      match ReadUTF(username.rest)
      case Err(e) => Err(e)
      case Ok(password) => Ok(Read(Credentials(username.value, password.value), password.rest))
  }

  /** The server reads back exactly the credentials the client wrote. */
  lemma CredentialsAgree(username: Str, password: Str, rest: seq<byte>)
    requires |username| <= MAX_UTF && |password| <= MAX_UTF
    ensures ReadCredentials(CredentialsBytes(username, password) + rest) == Ok(Read(Credentials(username, password), rest))
  {
    var second := U16Bytes(|password|) + password;
    assert CredentialsBytes(username, password) + rest == U16Bytes(|username|) + username + (second + rest);
    ReadUTFAfterWrite(username, second + rest);
    ReadUTFAfterWrite(password, rest);
  }

  /** The body of PUT: writeUTF(key), writeInt(value.length), write(value),
      the same writes as one map entry. */
  function PutFields(key: Str, value: ByteArray): seq<Field> {
    EntryFields(Entry(key, Some(value)))
  }

  /** The PUT body throws exactly when the key is too long; otherwise the
      server's handlePut reads back the key and the value and stops at the
      end of the body. */
  lemma PutAgree(key: Str, value: ByteArray, rest: seq<byte>)
    ensures Write(PutFields(key, value)).failed <==> |key| > MAX_UTF
    ensures |key| <= MAX_UTF ==> ReadPair(Write(PutFields(key, value)).bytes + rest) == Ok(Read(Pair(key, value), rest))
  {
    EntryWrite(Entry(key, Some(value)));
    if |key| <= MAX_UTF {
      ReadPairAfterWrite(Entry(key, Some(value)), rest);
    }
  }

  /** The body of GET: writeUTF(key). */
  function GetFields(key: Str): seq<Field> {
    [UtfField(key)]
  }

  /** The GET body throws exactly when the key is too long; otherwise the
      server's handleGet reads back the key. */
  lemma GetAgree(key: Str, rest: seq<byte>)
    ensures Write(GetFields(key)).failed <==> |key| > MAX_UTF
    ensures |key| <= MAX_UTF ==> ReadUTF(Write(GetFields(key)).bytes + rest) == Ok(Read(key, rest))
  {
    WriteSingle(UtfField(key));
    if |key| <= MAX_UTF {
      ReadUTFAfterWrite(key, rest);
    }
  }

  /** The body of GET_WHEN: writeUTF(key), writeUTF(keyCond),
      writeInt(valueCond.length), write(valueCond). */
  function GetWhenFields(key: Str, keyCond: Str, valueCond: ByteArray): seq<Field> {
    [UtfField(key)] + PutFields(keyCond, valueCond)
  }

  /** A conditional read as the server decodes it. */
  datatype Condition = Condition(key: Str, keyCond: Str, valueCond: ByteArray)

  /** handleGetWhen's reads: readUTF key, readUTF keyCond, readInt length,
      `new byte[length]`, readFully. */
  function ReadCondition(s: seq<byte>): Result<Read<Condition>> {
    match ReadUTF(s)
    case Err(e) => Err(e)
    case Ok(key) =>
      match ReadPair(key.rest)
      case Err(e) => Err(e)
      case Ok(cond) => Ok(Read(Condition(key.value, cond.value.key, cond.value.value), cond.rest))
  }

  /** The GET_WHEN body throws exactly when one of its strings is too long;
      otherwise the server reads back the key, the condition key and the
      condition value. */
  lemma GetWhenAgree(key: Str, keyCond: Str, valueCond: ByteArray, rest: seq<byte>)
    ensures Write(GetWhenFields(key, keyCond, valueCond)).failed <==> |key| > MAX_UTF || |keyCond| > MAX_UTF
    ensures |key| <= MAX_UTF && |keyCond| <= MAX_UTF ==>
      ReadCondition(Write(GetWhenFields(key, keyCond, valueCond)).bytes + rest) ==
      Ok(Read(Condition(key, keyCond, valueCond), rest))
  {
    var cond := Entry(keyCond, Some(valueCond));
    WriteAppend([UtfField(key)], PutFields(keyCond, valueCond));
    WriteSingle(UtfField(key));
    EntryWrite(cond);
    if |key| <= MAX_UTF && |keyCond| <= MAX_UTF {
      assert U16Bytes(|key|) + key + EntryBytes(cond) + rest == U16Bytes(|key|) + key + (EntryBytes(cond) + rest);
      ReadUTFAfterWrite(key, EntryBytes(cond) + rest);
      ReadPairAfterWrite(cond, rest);
    }
  }

  /** The body of MULTI_PUT: writeInt(pairs.size()), then every pair in the
      map's iteration order `order`, the same writes as serializeMap. */
  function MultiPutFields(order: seq<Str>, pairs: map<Str, ByteArray>): seq<Field>
    requires |pairs| <= MAX_INT32 && IsOrderOf(order, pairs.Keys)
  {
    MapFields(order, Present(pairs))
  }

  /** Every key fits in a writeUTF. */
  predicate KeysFitUtf(keys: set<Str>) {
    forall k | k in keys :: |k| <= MAX_UTF
  }

  /** handleMultiPut's reads: readInt numPairs, then the pairs into a fresh
      HashMap. */
  function ReadPairs(s: seq<byte>): Result<Read<map<Str, ByteArray>>> {
    match ReadInt(s)
    case Err(e) => Err(e)
    case Ok(count) => DecodeEntries(count.rest, count.value)
  }

  /** The MULTI_PUT body throws exactly when a key is too long. */
  lemma MultiPutLayout(order: seq<Str>, pairs: map<Str, ByteArray>)
    requires |pairs| <= MAX_INT32 && IsOrderOf(order, pairs.Keys)
    ensures Write(MultiPutFields(order, pairs)).failed <==> !KeysFitUtf(pairs.Keys)
    ensures KeysFitUtf(pairs.Keys) ==>
      (EntriesFit(EntriesOf(order, Present(pairs))) &&
       Write(MultiPutFields(order, pairs)).bytes == MapBytes(order, Present(pairs)))
  {
    MapFieldsLayout(order, Present(pairs));
  }

  /** The bytes serializeMap writes for a map without nulls are read back,
      count first, as that map. */
  lemma PairsReadBack(order: seq<Str>, pairs: map<Str, ByteArray>, rest: seq<byte>)
    requires |pairs| <= MAX_INT32 && IsOrderOf(order, pairs.Keys) && EntriesFit(EntriesOf(order, Present(pairs)))
    ensures ReadPairs(MapBytes(order, Present(pairs)) + rest) == Ok(Read(pairs, rest))
  {
    var m := Present(pairs);
    SerializedMapReadsBack(order, m, rest);
    assert Flatten(m) == pairs;
  }

  /** A MULTI_PUT body whose keys fit starts with the number of pairs, and
      the server reads back exactly the map the client sent. */
  lemma MultiPutAgree(order: seq<Str>, pairs: map<Str, ByteArray>, rest: seq<byte>)
    requires |pairs| <= MAX_INT32 && IsOrderOf(order, pairs.Keys) && KeysFitUtf(pairs.Keys)
    ensures ReadInt(Write(MultiPutFields(order, pairs)).bytes + rest).Ok?
    ensures ReadInt(Write(MultiPutFields(order, pairs)).bytes + rest).value.value == |pairs|
    ensures ReadPairs(Write(MultiPutFields(order, pairs)).bytes + rest) == Ok(Read(pairs, rest))
  {
    var m := Present(pairs);
    MultiPutLayout(order, pairs);
    SerializedMapReadsBack(order, m, rest);
    assert Flatten(m) == pairs;
  }

  /** The body of MULTI_GET: writeInt(keys.size()), then every key in the
      set's iteration order `order`. */
  function MultiGetFields(order: seq<Str>, keys: set<Str>): seq<Field>
    requires |keys| <= MAX_INT32 && IsOrderOf(order, keys)
  {
    [IntField(|keys|)] + KeysFields(order)
  }

  /** handleMultiGet's reads: readInt numKeys, then the keys into a fresh
      HashSet. */
  function ReadKeySet(s: seq<byte>): Result<Read<set<Str>>> {
    match ReadInt(s)
    case Err(e) => Err(e)
    case Ok(count) => DecodeKeys(count.rest, count.value)
  }

  /** The keys fit in writeUTF exactly when every key of the set does. */
  lemma OrderKeysFit(order: seq<Str>, keys: set<Str>)
    requires IsOrderOf(order, keys)
    ensures KeysFit(order) <==> KeysFitUtf(keys)
  {
    if KeysFit(order) {
      forall k | k in keys ensures |k| <= MAX_UTF {
        ElemsMember(order, k);
      }
    }
  }

  /** The MULTI_GET body throws exactly when a key is too long; otherwise it
      is the key count followed by the keys. */
  lemma MultiGetLayout(order: seq<Str>, keys: set<Str>)
    requires |keys| <= MAX_INT32 && IsOrderOf(order, keys)
    ensures Write(MultiGetFields(order, keys)).failed <==> !KeysFitUtf(keys)
    ensures KeysFitUtf(keys) ==>
      (KeysFit(order) && Write(MultiGetFields(order, keys)).bytes == Int32Bytes(|keys|) + KeysBytes(order))
  {
    WriteAppend([IntField(|keys|)], KeysFields(order));
    WriteSingle(IntField(|keys|));
    KeysWrite(order);
    OrderKeysFit(order, keys);
  }

  /** A MULTI_GET body whose keys fit is read back by the server as exactly
      the set of keys the client sent. */
  lemma MultiGetAgree(order: seq<Str>, keys: set<Str>, rest: seq<byte>)
    requires |keys| <= MAX_INT32 && IsOrderOf(order, keys) && KeysFitUtf(keys)
    ensures !Write(MultiGetFields(order, keys)).failed
    ensures ReadKeySet(Write(MultiGetFields(order, keys)).bytes + rest) == Ok(Read(keys, rest))
  {
    MultiGetLayout(order, keys);
    var body := KeysBytes(order);
    assert Write(MultiGetFields(order, keys)).bytes + rest == Int32Bytes(|keys|) + (body + rest);
    ReadIntAfterWrite(|keys|, body + rest);
    OrderLength(order, keys);
    DecodeKeysAfterWrite(order, rest);
  }

  // ---------------------------------------------------------------------
  // Responses

  /** The reply to AUTH, REGISTER, PUT and MULTI_PUT, and the refusal of an
      unauthenticated request: one writeBoolean. */
  function BoolResponse(flag: bool): seq<Field> {
    [BoolField(flag)]
  }

  /** A boolean reply is one byte, which the client's readBoolean reads back. */
  lemma BoolResponseAgree(flag: bool, rest: seq<byte>)
    ensures Write(BoolResponse(flag)) == Written([BoolByte(flag)], false)
    ensures ReadBoolean(Write(BoolResponse(flag)).bytes + rest) == Ok(Read(flag, rest))
  {
    WriteSingle(BoolField(flag));
    assert ([BoolByte(flag)] + rest)[1..] == rest;
  }

  /** The reply to GET: writeBoolean(true), then the value's length and bytes,
      or only the length 0 when the key is absent. */
  function ValueResponse(value: Option<ByteArray>): seq<Field> {
    [BoolField(true)] + match value
      case Some(v) => [IntField(|v|), RawField(v)]
      case None => [IntField(0)]
  }

  /** The bytes of a GET reply. */
  function ValueResponseBytes(value: Option<ByteArray>): seq<byte> {
    [1] + Int32Bytes(|Flat(value)|) + Flat(value)
  }

  /** A GET reply never throws, and an absent key is sent exactly as an
      empty value. */
  lemma ValueResponseLayout(value: Option<ByteArray>)
    ensures Write(ValueResponse(value)) == Written(ValueResponseBytes(value), false)
    ensures Write(ValueResponse(None)) == Write(ValueResponse(Some([])))
  {
    forall v: Option<ByteArray> ensures Write(ValueResponse(v)) == Written(ValueResponseBytes(v), false) {
      var tail := ValueResponse(v)[1..];
      assert ValueResponse(v) == [BoolField(true)] + tail;
      WriteAppend([BoolField(true)], tail);
      WriteSingle(BoolField(true));
      WriteSingle(IntField(|Flat(v)|));
      if v.Some? {
        assert tail == [IntField(|v.value|)] + [RawField(v.value)];
        WriteAppend([IntField(|v.value|)], [RawField(v.value)]);
        WriteSingle(RawField(v.value));
      }
    }
  }

  /** Client.get and Client.getWhen: readBoolean; on false the result is
      null, otherwise readInt length, `new byte[length]`, readFully. */
  function ReadValueResponse(s: seq<byte>): (r: Result<Read<Option<ByteArray>>>)
    ensures r.Ok? ==> |s| > 0 && (r.value.value.None? <==> s[0] == 0)
    ensures r.Ok? && r.value.value.Some? ==> |s| >= 5 && |r.value.value.value| == Int32Of(s[1], s[2], s[3], s[4])
    ensures r.Err? ==> r.error == EndOfStream || (r.error == NegativeArraySize && |s| >= 5 && Int32Of(s[1], s[2], s[3], s[4]) < 0)
  {
    match ReadBoolean(s)
    case Err(e) => Err(e)
    case Ok(flag) =>
      if !flag.value then Ok(Read(None, flag.rest))
      else
        match ReadInt(flag.rest)
        case Err(e) => Err(e)
        case Ok(length) =>
          match ReadBytes(length.rest, length.value)
          case Err(e) => Err(e)
          case Ok(bytes) => Ok(Read(Some(bytes.value), bytes.rest))
  }

  /** The client reads a GET reply back as the value, an absent key as an
      empty array, and consumes exactly the reply. */
  lemma ValueResponseAgree(value: Option<ByteArray>, rest: seq<byte>)
    ensures ReadValueResponse(Write(ValueResponse(value)).bytes + rest) == Ok(Read(Some(Flat(value)), rest))
  {
    ValueResponseLayout(value);
    var v := Flat(value);
    var s := ValueResponseBytes(value) + rest;
    assert s[1..] == Int32Bytes(|v|) + (v + rest);
    ReadIntAfterWrite(|v|, v + rest);
    assert (v + rest)[..|v|] == v && (v + rest)[|v|..] == rest;
  }

  /** The reply to MULTI_GET: writeBoolean(true), writeInt(result.size()),
      then every entry of the result in its iteration order. */
  function MultiGetResponse(order: seq<Str>, result: map<Str, ByteArray>): seq<Field>
    requires |result| <= MAX_INT32 && IsOrderOf(order, result.Keys)
  {
    [BoolField(true)] + MapFields(order, Present(result))
  }

  /** Client.multiGet: readBoolean; on false the result is null, otherwise
      readInt size and `size` entries into a fresh HashMap. */
  function ReadMultiGetResponse(s: seq<byte>): (r: Result<Read<Option<map<Str, ByteArray>>>>)
    ensures r.Ok? ==> |s| > 0 && (r.value.value.None? <==> s[0] == 0)
    ensures r.Err? ==> r.error == EndOfStream || r.error == NegativeArraySize
  {
    match ReadBoolean(s)
    case Err(e) => Err(e)
    case Ok(flag) =>
      if !flag.value then Ok(Read(None, flag.rest))
      else
        match ReadPairs(flag.rest)
        case Err(e) => Err(e)
        case Ok(values) => Ok(Read(Some(values.value), values.rest))
  }

  /** What a failed read of a MULTI_GET reply leaves on the stream: nothing
      once the end of the stream is reached; after a negative value length,
      the bytes that follow that length. */
  function MultiGetResponseUnread(s: seq<byte>): (left: seq<byte>)
    requires ReadMultiGetResponse(s).Err?
    ensures ReadMultiGetResponse(s).error == EndOfStream ==> left == []
  {
    if |s| < 5 then []
    else
      assert s[1..][4..] == s[5..];
      DecodeEntriesUnread(s[5..], Int32Of(s[1], s[2], s[3], s[4]))
  }

  /** A MULTI_GET reply whose keys fit never throws: it is a `true` byte,
      then the result as serializeMap writes it. */
  lemma MultiGetResponseLayout(order: seq<Str>, result: map<Str, ByteArray>)
    requires |result| <= MAX_INT32 && IsOrderOf(order, result.Keys) && KeysFitUtf(result.Keys)
    ensures EntriesFit(EntriesOf(order, Present(result)))
    ensures Write(MultiGetResponse(order, result)) == Written([1] + MapBytes(order, Present(result)), false)
  {
    var m := Present(result);
    WriteAppend([BoolField(true)], MapFields(order, m));
    WriteSingle(BoolField(true));
    MapFieldsLayout(order, m);
  }

  /** After a `true` byte, the client reads the map that follows. */
  lemma ReadTrueThenPairs(body: seq<byte>, rest: seq<byte>, values: map<Str, ByteArray>)
    requires ReadPairs(body + rest) == Ok(Read(values, rest))
    ensures ReadMultiGetResponse([1] + body + rest) == Ok(Read(Some(values), rest))
  {
    var s := [1] + body + rest;
    assert s[0] == 1 && s[1..] == body + rest;
    var flag := ReadBoolean(s);
    assert flag.Ok? && flag.value.value && flag.value.rest == body + rest;
    assert ReadPairs(flag.value.rest) == Ok(Read(values, rest));
  }

  /** A MULTI_GET reply whose keys fit is read back by the client as exactly
      the server's result. */
  lemma MultiGetResponseAgree(order: seq<Str>, result: map<Str, ByteArray>, rest: seq<byte>)
    requires |result| <= MAX_INT32 && IsOrderOf(order, result.Keys) && KeysFitUtf(result.Keys)
    ensures !Write(MultiGetResponse(order, result)).failed
    ensures ReadMultiGetResponse(Write(MultiGetResponse(order, result)).bytes + rest) == Ok(Read(Some(result), rest))
  {
    MultiGetResponseLayout(order, result);
    PairsReadBack(order, result, rest);
    ReadTrueThenPairs(MapBytes(order, Present(result)), rest, result);
  }

  /** A refusal, one `false`, reads as null for get, getWhen and multiGet,
      and consumes only that byte. */
  lemma RefusalReadsAsNull(rest: seq<byte>)
    ensures ReadValueResponse(Write(BoolResponse(false)).bytes + rest) == Ok(Read(None, rest))
    ensures ReadMultiGetResponse(Write(BoolResponse(false)).bytes + rest) == Ok(Read(None, rest))
  {
    BoolResponseAgree(false, rest);
  }
}

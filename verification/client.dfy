/** Client/Client.java: the client side of the binary protocol.  Each call
    writes one request to the socket's output stream (`sent`) and reads the
    reply from its input stream (`incoming`, the bytes the server has sent
    and the client has not read yet).  A writeUTF that throws ends the call
    with the bytes written before it left on the stream. */
module KeyValueClient {
  import opened Wire
  import opened Entries
  import opened Requests
  import opened Protocol

  /** The writes of multiPut: the tag, the pair count and the pairs, where
      only a pair's key can make them throw. */
  lemma MultiPutRequestWrites(order: seq<Str>, pairs: map<Str, ByteArray>)
    requires |pairs| <= MAX_INT32 && IsOrderOf(order, pairs.Keys)
    ensures var w := Write(EntriesFields(EntriesOf(order, Present(pairs))));
      Write(RequestFields(MultiPut, MultiPutFields(order, pairs))) ==
      Written(Int32Bytes(MULTI_PUT) + Int32Bytes(|pairs|) + w.bytes, w.failed)
  {
    var body := MultiPutFields(order, pairs);
    RequestStartsWithTag(MultiPut, body, []);
    WriteAppend([IntField(|pairs|)], EntriesFields(EntriesOf(order, Present(pairs))));
    WriteSingle(IntField(|pairs|));
  }

  /** The writes of multiGet: the tag, the key count and the keys. */
  lemma MultiGetRequestWrites(order: seq<Str>, keys: set<Str>)
    requires |keys| <= MAX_INT32 && IsOrderOf(order, keys)
    ensures var w := Write(KeysFields(order));
      Write(RequestFields(MultiGet, MultiGetFields(order, keys))) ==
      Written(Int32Bytes(MULTI_GET) + Int32Bytes(|keys|) + w.bytes, w.failed)
  {
    var body := MultiGetFields(order, keys);
    RequestStartsWithTag(MultiGet, body, []);
    WriteAppend([IntField(|keys|)], KeysFields(order));
    WriteSingle(IntField(|keys|));
  }

  class Client {
    var sent: seq<byte>
    var incoming: seq<byte>
    var open: bool

    constructor(incoming: seq<byte>)
      ensures sent == [] && this.incoming == incoming && open
    {
      sent := [];
      this.incoming := incoming;
      open := true;
    }

    /** A run of writes on the output stream; false when one of them threw. */
    method Send(fields: seq<Field>) returns (ok: bool)
      modifies this
      ensures sent == old(sent) + Write(fields).bytes && ok == !Write(fields).failed
      ensures incoming == old(incoming) && open == old(open)
    {
      var w := Write(fields);
      sent := sent + w.bytes;
      return !w.failed;
    }

    /** The boolean reply of authenticate, register, put and multiPut. */
    method ReceiveBoolean() returns (r: Result<bool>)
      modifies this
      ensures ReadBoolean(old(incoming)).Err? ==> r == Err(EndOfStream) && incoming == old(incoming)
      ensures ReadBoolean(old(incoming)).Ok? ==>
        r == Ok(ReadBoolean(old(incoming)).value.value) && incoming == ReadBoolean(old(incoming)).value.rest
      ensures sent == old(sent) && open == old(open)
    {
      var flag := ReadBoolean(incoming);
      if flag.Err? {
        return Err(flag.error);
      }
      incoming := flag.value.rest;
      return Ok(flag.value.value);
    }

    /** authenticate and register: the tag, the username and the password,
        then the boolean the server answers. */
    method SendCredentials(op: Operation, username: Str, password: Str) returns (r: Result<bool>)
      requires op == Operation.Auth || op == Operation.Register
      modifies this
      ensures var w := Write(RequestFields(op, CredentialsFields(username, password)));
        && sent == old(sent) + w.bytes && open == old(open)
        && (w.failed ==> r == Err(UtfTooLong) && incoming == old(incoming))
        && (!w.failed && ReadBoolean(old(incoming)).Err? ==> r == Err(EndOfStream) && incoming == old(incoming))
        && (!w.failed && ReadBoolean(old(incoming)).Ok? ==>
              r == Ok(ReadBoolean(old(incoming)).value.value) && incoming == ReadBoolean(old(incoming)).value.rest)
    {
      var ok := Send(RequestFields(op, CredentialsFields(username, password)));
      if !ok {
        return Err(UtfTooLong);
      }
      r := ReceiveBoolean();
    }

    method Authenticate(username: Str, password: Str) returns (r: Result<bool>)
      modifies this
      ensures var w := Write(RequestFields(Operation.Auth, CredentialsFields(username, password)));
        && sent == old(sent) + w.bytes && open == old(open)
        && (w.failed ==> r == Err(UtfTooLong) && incoming == old(incoming))
        && (!w.failed && ReadBoolean(old(incoming)).Err? ==> r == Err(EndOfStream) && incoming == old(incoming))
        && (!w.failed && ReadBoolean(old(incoming)).Ok? ==>
              r == Ok(ReadBoolean(old(incoming)).value.value) && incoming == ReadBoolean(old(incoming)).value.rest)
    {
      r := SendCredentials(Operation.Auth, username, password);
    }

    method Register(username: Str, password: Str) returns (r: Result<bool>)
      modifies this
      ensures var w := Write(RequestFields(Operation.Register, CredentialsFields(username, password)));
        && sent == old(sent) + w.bytes && open == old(open)
        && (w.failed ==> r == Err(UtfTooLong) && incoming == old(incoming))
        && (!w.failed && ReadBoolean(old(incoming)).Err? ==> r == Err(EndOfStream) && incoming == old(incoming))
        && (!w.failed && ReadBoolean(old(incoming)).Ok? ==>
              r == Ok(ReadBoolean(old(incoming)).value.value) && incoming == ReadBoolean(old(incoming)).value.rest)
    {
      r := SendCredentials(Operation.Register, username, password);
    }

    /** put: the tag, the key, the value's length and bytes, then one boolean
        that is read and discarded. */
    method Put(key: Str, value: ByteArray) returns (r: Result<()>)
      modifies this
      ensures var w := Write(RequestFields(Operation.Put, PutFields(key, value)));
        && sent == old(sent) + w.bytes && open == old(open)
        && (w.failed ==> r == Err(UtfTooLong) && incoming == old(incoming))
        && (!w.failed && ReadBoolean(old(incoming)).Err? ==> r == Err(EndOfStream) && incoming == old(incoming))
        && (!w.failed && ReadBoolean(old(incoming)).Ok? ==>
              r == Ok(()) && incoming == ReadBoolean(old(incoming)).value.rest)
    {
      var ok := Send(RequestFields(Operation.Put, PutFields(key, value)));
      if !ok {
        return Err(UtfTooLong);
      }
      var flag := ReceiveBoolean();
      if flag.Err? {
        return Err(flag.error);
      }
      return Ok(());
    }

    /** The reply of get and getWhen: null after `false`, otherwise the
        declared number of bytes. */
    method ReceiveValue() returns (r: Result<Option<ByteArray>>)
      modifies this
      ensures ReadValueResponse(old(incoming)).Err? ==>
        && r == Err(ReadValueResponse(old(incoming)).error)
        && incoming == (if r.error == NegativeArraySize then old(incoming)[5..] else [])
      ensures ReadValueResponse(old(incoming)).Ok? ==>
        r == Ok(ReadValueResponse(old(incoming)).value.value) && incoming == ReadValueResponse(old(incoming)).value.rest
      ensures sent == old(sent) && open == old(open)
    {
      var flag := ReadBoolean(incoming);
      if flag.Err? {
        return Err(flag.error);
      }
      if !flag.value.value {
        incoming := flag.value.rest;
        return Ok(None);
      }
      var length := ReadInt(flag.value.rest);
      if length.Err? {
        incoming := [];
        return Err(length.error);
      }
      var value := ReadBytes(length.value.rest, length.value.value);
      if value.Err? {
        // readFully consumes what is left; a negative length throws before it
        incoming := if value.error == NegativeArraySize then length.value.rest else [];
        return Err(value.error);
      }
      incoming := value.value.rest;
      return Ok(Some(value.value.value));
    }

    /** get: the tag and the key, then the reply. */
    method Get(key: Str) returns (r: Result<Option<ByteArray>>)
      modifies this
      ensures var w := Write(RequestFields(Operation.Get, GetFields(key)));
        && sent == old(sent) + w.bytes && open == old(open)
        && (w.failed ==> r == Err(UtfTooLong) && incoming == old(incoming))
        && (!w.failed && ReadValueResponse(old(incoming)).Err? ==>
              && r == Err(ReadValueResponse(old(incoming)).error)
              && incoming == (if r.error == NegativeArraySize then old(incoming)[5..] else []))
        && (!w.failed && ReadValueResponse(old(incoming)).Ok? ==>
              r == Ok(ReadValueResponse(old(incoming)).value.value) && incoming == ReadValueResponse(old(incoming)).value.rest)
    {
      var ok := Send(RequestFields(Operation.Get, GetFields(key)));
      if !ok {
        return Err(UtfTooLong);
      }
      r := ReceiveValue();
    }

    /** getWhen: the tag, the key, the condition key and the condition
        value, then a reply read as for get. */
    method GetWhen(key: Str, keyCond: Str, valueCond: ByteArray) returns (r: Result<Option<ByteArray>>)
      modifies this
      ensures var w := Write(RequestFields(Operation.GetWhen, GetWhenFields(key, keyCond, valueCond)));
        && sent == old(sent) + w.bytes && open == old(open)
        && (w.failed ==> r == Err(UtfTooLong) && incoming == old(incoming))
        && (!w.failed && ReadValueResponse(old(incoming)).Err? ==>
              && r == Err(ReadValueResponse(old(incoming)).error)
              && incoming == (if r.error == NegativeArraySize then old(incoming)[5..] else []))
        && (!w.failed && ReadValueResponse(old(incoming)).Ok? ==>
              r == Ok(ReadValueResponse(old(incoming)).value.value) && incoming == ReadValueResponse(old(incoming)).value.rest)
    {
      var ok := Send(RequestFields(Operation.GetWhen, GetWhenFields(key, keyCond, valueCond)));
      if !ok {
        return Err(UtfTooLong);
      }
      r := ReceiveValue();
    }

    /** The request of multiPut: the tag, the number of pairs, then each pair
        in the map's iteration order; false when a key made writeUTF throw. */
    method SendPairs(pairs: map<Str, ByteArray>) returns (ok: bool)
      requires |pairs| <= MAX_INT32
      modifies this
      ensures ok <==> KeysFitUtf(pairs.Keys)
      ensures exists order | IsOrderOf(order, pairs.Keys) ::
        sent == old(sent) + Write(RequestFields(Operation.MultiPut, MultiPutFields(order, pairs))).bytes
      ensures incoming == old(incoming) && open == old(open)
    {
      var w := WriteEntries(Present(pairs));
      ghost var order :| IsOrderOf(order, pairs.Keys) && w == Write(EntriesFields(EntriesOf(order, Present(pairs))));
      MultiPutRequestWrites(order, pairs);
      RequestStartsWithTag(Operation.MultiPut, MultiPutFields(order, pairs), []);
      MultiPutLayout(order, pairs);
      var request := Int32Bytes(MULTI_PUT) + Int32Bytes(|pairs|) + w.bytes;
      assert request == Write(RequestFields(Operation.MultiPut, MultiPutFields(order, pairs))).bytes;
      sent := sent + request;
      return !w.failed;
    }

    /** multiPut: the request, then one boolean that is read and discarded. */
    method MultiPut(pairs: map<Str, ByteArray>) returns (r: Result<()>)
      requires |pairs| <= MAX_INT32
      modifies this
      ensures open == old(open)
      ensures exists order | IsOrderOf(order, pairs.Keys) ::
        sent == old(sent) + Write(RequestFields(Operation.MultiPut, MultiPutFields(order, pairs))).bytes
      ensures !KeysFitUtf(pairs.Keys) ==> r == Err(UtfTooLong) && incoming == old(incoming)
      ensures KeysFitUtf(pairs.Keys) && ReadBoolean(old(incoming)).Err? ==> r == Err(EndOfStream) && incoming == old(incoming)
      ensures KeysFitUtf(pairs.Keys) && ReadBoolean(old(incoming)).Ok? ==>
        r == Ok(()) && incoming == ReadBoolean(old(incoming)).value.rest
    {
      var ok := SendPairs(pairs);
      if !ok {
        return Err(UtfTooLong);
      }
      var flag := ReceiveBoolean();
      if flag.Err? {
        return Err(flag.error);
      }
      return Ok(());
    }

    /** The request of multiGet: the tag, the number of keys, then each key
        in the set's iteration order; false when a key made writeUTF throw. */
    method SendKeys(keys: set<Str>) returns (ok: bool)
      requires |keys| <= MAX_INT32
      modifies this
      ensures ok <==> KeysFitUtf(keys)
      ensures exists order | IsOrderOf(order, keys) ::
        sent == old(sent) + Write(RequestFields(Operation.MultiGet, MultiGetFields(order, keys))).bytes
      ensures incoming == old(incoming) && open == old(open)
    {
      var w := WriteKeys(keys);
      ghost var order :| IsOrderOf(order, keys) && w == Write(KeysFields(order));
      MultiGetRequestWrites(order, keys);
      RequestStartsWithTag(Operation.MultiGet, MultiGetFields(order, keys), []);
      MultiGetLayout(order, keys);
      var request := Int32Bytes(MULTI_GET) + Int32Bytes(|keys|) + w.bytes;
      assert request == Write(RequestFields(Operation.MultiGet, MultiGetFields(order, keys))).bytes;
      sent := sent + request;
      return !w.failed;
    }

    /** The reply of multiGet: null after `false`, otherwise the entry count
        and the loop that reads that many entries into a fresh map. */
    method ReceiveMap() returns (r: Result<Option<map<Str, ByteArray>>>)
      modifies this
      ensures ReadMultiGetResponse(old(incoming)).Err? ==>
        r == Err(ReadMultiGetResponse(old(incoming)).error) && incoming == MultiGetResponseUnread(old(incoming))
      ensures ReadMultiGetResponse(old(incoming)).Ok? ==>
        r == Ok(ReadMultiGetResponse(old(incoming)).value.value) && incoming == ReadMultiGetResponse(old(incoming)).value.rest
      ensures sent == old(sent) && open == old(open)
    {
      var flag := ReadBoolean(incoming);
      if flag.Err? {
        return Err(flag.error);
      }
      if !flag.value.value {
        incoming := flag.value.rest;
        return Ok(None);
      }
      var size := ReadInt(flag.value.rest);
      if size.Err? {
        incoming := [];
        return Err(size.error);
      }
      var values := ReadEntries(size.value.rest, size.value.value);
      if values.Err? {
        incoming := DecodeEntriesUnread(size.value.rest, size.value.value);
        return Err(values.error);
      }
      incoming := values.value.rest;
      return Ok(Some(values.value.value));
    }

    /** multiGet: the request, then the reply. */
    method MultiGet(keys: set<Str>) returns (r: Result<Option<map<Str, ByteArray>>>)
      requires |keys| <= MAX_INT32
      modifies this
      ensures open == old(open)
      ensures exists order | IsOrderOf(order, keys) ::
        sent == old(sent) + Write(RequestFields(Operation.MultiGet, MultiGetFields(order, keys))).bytes
      ensures !KeysFitUtf(keys) ==> r == Err(UtfTooLong) && incoming == old(incoming)
      ensures KeysFitUtf(keys) && ReadMultiGetResponse(old(incoming)).Err? ==>
        r == Err(ReadMultiGetResponse(old(incoming)).error) && incoming == MultiGetResponseUnread(old(incoming))
      ensures KeysFitUtf(keys) && ReadMultiGetResponse(old(incoming)).Ok? ==>
        r == Ok(ReadMultiGetResponse(old(incoming)).value.value) && incoming == ReadMultiGetResponse(old(incoming)).value.rest
    {
      var ok := SendKeys(keys);
      if !ok {
        return Err(UtfTooLong);
      }
      r := ReceiveMap();
    }

    /** logout: only the tag; no reply is read. */
    method Logout()
      modifies this
      ensures sent == old(sent) + Write(RequestFields(Operation.Logout, [])).bytes
      ensures sent == old(sent) + Int32Bytes(LOGOUT)
      ensures incoming == old(incoming) && open == old(open)
    {
      RequestStartsWithTag(Operation.Logout, [], []);
      var _ := Send(RequestFields(Operation.Logout, []));
    }

    /** close: send logout, then close the socket. */
    method Close()
      modifies this
      ensures sent == old(sent) + Int32Bytes(LOGOUT)
      ensures incoming == old(incoming) && !open
    {
      Logout();
      open := false;
    }
  }
}

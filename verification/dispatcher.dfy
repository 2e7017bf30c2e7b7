/** Server/Demultiplexer.java: the per-connection request loop of the binary
    protocol.  Each call of handleRequest reads a tag, dispatches on it,
    decodes the request body, calls the server and writes the reply.  The
    store operations are refused with a single `false` until a user has
    logged in on the connection.

    The connection's streams are the unread `input` and the written
    `output`.  A conditional read (GET_WHEN) is decoded and handed to a
    thread of its own; the model keeps the decoded requests in `conditions`. */
module ServerDemultiplexer {
  import opened Wire
  import opened Entries
  import opened Requests
  import opened Protocol
  import opened Store

  /** How a call of handleRequest ends. */
  datatype Outcome =
    | Handled          // the request was served
    | Blocked          // authenticate waits at the session cap: nothing has happened yet
    | Failed(error: Error)   // handleRequest threw; the connection is dropped

  /** The operation named by the tag at the head of a request, if the tag
      can be read and is a known one. */
  function RequestOperation(s: seq<byte>): Option<Operation> {
    var tag := ReadInt(s);
    if tag.Ok? then OperationOf(tag.value.value) else None
  }

  /** The operations that require a logged-in user. */
  predicate Gated(op: Operation) {
    op.Put? || op.Get? || op.MultiPut? || op.MultiGet?
  }

  /** A MULTI_GET reply for keys read by readUTF never throws: it is the
      `true` flag, the count and the entries as serializeMap writes them. */
  lemma MultiGetReplyFits(order: seq<Str>, result: map<Str, ByteArray>, keys: set<Str>, w: Written)
    requires KeysFitUtf(keys) && result.Keys <= keys && |keys| <= MAX_INT32
    requires IsOrderOf(order, result.Keys) && w == Write(EntriesFields(EntriesOf(order, Present(result))))
    ensures |result| <= MAX_INT32 && !w.failed
    ensures Write(MultiGetResponse(order, result)).bytes == [1] + Int32Bytes(|result|) + w.bytes
  {
    assert |result| <= |keys| by {
      assert result.Keys <= keys;
      SubsetSize(result.Keys, keys);
    }
    MultiGetResponseLayout(order, result);
    EntriesWrite(EntriesOf(order, Present(result)));
  }

  lemma {:induction false} SubsetSize(a: set<Str>, b: set<Str>)
    requires a <= b
    ensures |a| <= |b|
    decreases |b|
  {
    if a != {} {
      var x :| x in a;
      SubsetSize(a - {x}, b - {x});
    }
  }

  /** A refused PUT leaves its body unread, and the next handleRequest reads
      the body's first four bytes as a tag: for a non-empty key they never
      name an operation, so the connection fails. */
  lemma RefusedPutBodyIsUnknownTag(key: Str, value: ByteArray, more: seq<byte>)
    requires 1 <= |key| <= MAX_UTF
    ensures ReadInt(EntryBytes(Entry(key, Some(value))) + more).Ok?
    ensures OperationOf(ReadInt(EntryBytes(Entry(key, Some(value))) + more).value.value).None?
  {
    var s := EntryBytes(Entry(key, Some(value))) + more;
    var u := U16Bytes(|key|);
    assert s[0] == u[0] && s[1] == u[1];
    var n := Int32Of(s[0], s[1], s[2], s[3]);
    var hi := s[0] as int * 0x100 + s[1];
    assert hi >= 1;
    assert s[0] as int * 0x100_0000 + s[1] as int * 0x1_0000 == hi * 0x1_0000;
    assert n >= 0x1_0000 || n < 0;
  }

  class Demultiplexer {
    var input: seq<byte>
    var output: seq<byte>
    var username: Option<Str>
    var conditions: seq<Condition>
    const server: Server

    ghost predicate Valid()
      reads this, server
    {
      server.Valid()
    }

    constructor(input: seq<byte>, server: Server)
      requires server.Valid()
      ensures this.input == input && output == [] && username == None && conditions == []
      ensures this.server == server && Valid()
    {
      this.input := input;
      output := [];
      username := None;
      conditions := [];
      this.server := server;
    }

    /** Write one boolean reply. */
    method WriteBoolean(flag: bool)
      modifies this
      ensures output == old(output) + Write(BoolResponse(flag)).bytes
      ensures input == old(input) && username == old(username) && conditions == old(conditions)
    {
      BoolResponseAgree(flag, []);
      output := output + [BoolByte(flag)];
    }

    /** handleRequest: read the tag and dispatch on it; an unknown tag throws
        and writes nothing. */
    method HandleRequest() returns (o: Outcome)
      requires Valid()
      modifies this, server
      ensures Valid()
      ensures !o.Handled? ==> unchanged(this) && unchanged(server)
      ensures ReadInt(old(input)).Err? ==> o == Failed(EndOfStream)
      ensures ReadInt(old(input)).Ok? && OperationOf(ReadInt(old(input)).value.value).None? ==>
        o == Failed(UnknownRequestType)
      // AUTH: as handleAuth on the bytes after the tag
      ensures RequestOperation(old(input)) == Some(Operation.Auth) ==>
        var body := ReadInt(old(input)).value.rest;
        && (ReadCredentials(body).Err? ==> o == Failed(ReadCredentials(body).error))
        && (ReadCredentials(body).Ok? ==>
              var c := ReadCredentials(body).value;
              var u, p := c.value.username, c.value.password;
              var known := u in old(server.users) && old(server.users)[u] == p;
              && (o == Blocked <==> known && |old(server.activeSessions)| >= server.maxSessions)
              && (o != Blocked ==>
                    && o == Handled && input == c.rest && conditions == old(conditions)
                    && output == old(output) + Write(BoolResponse(known)).bytes
                    && username == (if known then Some(u) else old(username))
                    && server.activeSessions == (if known then old(server.activeSessions) + {u} else old(server.activeSessions))
                    && server.users == old(server.users) && server.store == old(server.store)))
      // REGISTER: as handleRegister
      ensures RequestOperation(old(input)) == Some(Operation.Register) ==>
        var body := ReadInt(old(input)).value.rest;
        && (ReadCredentials(body).Err? ==> o == Failed(ReadCredentials(body).error))
        && (ReadCredentials(body).Ok? ==>
              var c := ReadCredentials(body).value;
              var u, p := c.value.username, c.value.password;
              && o == Handled && input == c.rest && username == old(username) && conditions == old(conditions)
              && output == old(output) + Write(BoolResponse(u !in old(server.users))).bytes
              && server.users == (if u in old(server.users) then old(server.users) else old(server.users)[u := p])
              && server.store == old(server.store) && server.activeSessions == old(server.activeSessions))
      // the store operations without a user: a single `false`, the body left unread
      ensures var op := RequestOperation(old(input));
        op.Some? && Gated(op.value) && old(username).None? ==>
          && o == Handled && unchanged(server)
          && output == old(output) + Write(BoolResponse(false)).bytes
          && input == ReadInt(old(input)).value.rest && username == None && conditions == old(conditions)
      // PUT with a user: as handlePut
      ensures RequestOperation(old(input)) == Some(Operation.Put) && old(username).Some? ==>
        var body := ReadInt(old(input)).value.rest;
        && (ReadPair(body).Err? ==> o == Failed(ReadPair(body).error))
        && (ReadPair(body).Ok? ==>
              var kv := ReadPair(body).value;
              && o == Handled && input == kv.rest && username == old(username) && conditions == old(conditions)
              && output == old(output) + Write(BoolResponse(true)).bytes
              && server.store == old(server.store)[kv.value.key := kv.value.value]
              && server.users == old(server.users) && server.activeSessions == old(server.activeSessions))
      // GET with a user: as handleGet
      ensures RequestOperation(old(input)) == Some(Operation.Get) && old(username).Some? ==>
        var body := ReadInt(old(input)).value.rest;
        && unchanged(server)
        && (ReadUTF(body).Err? ==> o == Failed(ReadUTF(body).error))
        && (ReadUTF(body).Ok? ==>
              var key := ReadUTF(body).value;
              && o == Handled && input == key.rest && username == old(username) && conditions == old(conditions)
              && output == old(output) + Write(ValueResponse(server.Get(key.value))).bytes)
      // MULTI_PUT with a user: as handleMultiPut
      ensures RequestOperation(old(input)) == Some(Operation.MultiPut) && old(username).Some? ==>
        var body := ReadInt(old(input)).value.rest;
        && (ReadPairs(body).Err? ==> o == Failed(ReadPairs(body).error))
        && (ReadPairs(body).Ok? ==>
              var pairs := ReadPairs(body).value;
              && o == Handled && input == pairs.rest && username == old(username) && conditions == old(conditions)
              && output == old(output) + Write(BoolResponse(true)).bytes
              && server.store == old(server.store) + pairs.value
              && server.users == old(server.users) && server.activeSessions == old(server.activeSessions))
      // MULTI_GET with a user: as handleMultiGet
      ensures RequestOperation(old(input)) == Some(Operation.MultiGet) && old(username).Some? ==>
        var body := ReadInt(old(input)).value.rest;
        && unchanged(server)
        && (ReadKeySet(body).Err? ==> o == Failed(ReadKeySet(body).error))
        && (ReadKeySet(body).Ok? ==>
              var keys := ReadKeySet(body).value;
              var result := Selected(server.store, keys.value);
              && o == Handled && input == keys.rest && username == old(username) && conditions == old(conditions)
              && |result| <= MAX_INT32
              && exists order | IsOrderOf(order, result.Keys) ::
                   output == old(output) + Write(MultiGetResponse(order, result)).bytes)
      // GET_WHEN, logged in or not: as handleGetWhen
      ensures RequestOperation(old(input)) == Some(Operation.GetWhen) ==>
        var body := ReadInt(old(input)).value.rest;
        && unchanged(server)
        && (ReadCondition(body).Err? ==> o == Failed(ReadCondition(body).error))
        && (ReadCondition(body).Ok? ==>
              && o == Handled && input == ReadCondition(body).value.rest
              && conditions == old(conditions) + [ReadCondition(body).value.value]
              && output == old(output) && username == old(username))
      // LOGOUT: as handleLogout
      ensures RequestOperation(old(input)) == Some(Operation.Logout) ==>
        && o == Handled && output == old(output) && input == ReadInt(old(input)).value.rest && username == None
        && conditions == old(conditions)
        && server.activeSessions == (if old(username).Some? then old(server.activeSessions) - {old(username).value}
                                     else old(server.activeSessions))
        && server.store == old(server.store) && server.users == old(server.users)
    {
      var tag := ReadInt(input);
      if tag.Err? {
        return Failed(tag.error);
      }
      var op := OperationOf(tag.value.value);
      if op.None? {
        return Failed(UnknownRequestType);
      }
      var body := tag.value.rest;
      match op.value
      case Auth => o := HandleAuth(body);
      case Register => o := HandleRegister(body);
      case Put => o := HandlePut(body);
      case Get => o := HandleGet(body);
      case MultiPut => o := HandleMultiPut(body);
      case MultiGet => o := HandleMultiGet(body);
      case GetWhen => o := HandleGetWhen(body);
      case Logout => o := HandleLogout(body);
    }

    /** handleAuth: read the credentials and write authenticate's answer; a
        successful login records the user on the connection. */
    method HandleAuth(body: seq<byte>) returns (o: Outcome)
      requires Valid()
      modifies this, server
      ensures Valid()
      ensures !o.Handled? ==> unchanged(this) && unchanged(server)
      ensures ReadCredentials(body).Err? ==> o == Failed(ReadCredentials(body).error)
      ensures ReadCredentials(body).Ok? ==>
        var c := ReadCredentials(body).value;
        var u, p := c.value.username, c.value.password;
        var known := u in old(server.users) && old(server.users)[u] == p;
        && (o == Blocked <==> known && |old(server.activeSessions)| >= server.maxSessions)
        && (o != Blocked ==>
          && o == Handled && input == c.rest && conditions == old(conditions)
          && output == old(output) + Write(BoolResponse(known)).bytes
          && username == (if known then Some(u) else old(username))
          && server.activeSessions == (if known then old(server.activeSessions) + {u} else old(server.activeSessions))
          && server.users == old(server.users) && server.store == old(server.store))
    {
      var c := ReadCredentials(body);
      if c.Err? {
        return Failed(c.error);
      }
      var u, p := c.value.value.username, c.value.value.password;
      var r := server.Authenticate(u, p);
      if r == WouldBlock {
        return Blocked;
      }
      var success := r == Admitted;
      if success {
        username := Some(u);
      }
      WriteBoolean(success);
      input := c.value.rest;
      return Handled;
    }

    /** handleRegister: read the credentials and write register's answer. */
    method HandleRegister(body: seq<byte>) returns (o: Outcome)
      requires Valid()
      modifies this, server
      ensures Valid()
      ensures !o.Handled? ==> unchanged(this) && unchanged(server)
      ensures o.Blocked? == false
      ensures ReadCredentials(body).Err? ==> o == Failed(ReadCredentials(body).error)
      ensures ReadCredentials(body).Ok? ==>
        var c := ReadCredentials(body).value;
        var u, p := c.value.username, c.value.password;
        && o == Handled && input == c.rest && username == old(username) && conditions == old(conditions)
        && output == old(output) + Write(BoolResponse(u !in old(server.users))).bytes
        && server.users == (if u in old(server.users) then old(server.users) else old(server.users)[u := p])
        && server.store == old(server.store) && server.activeSessions == old(server.activeSessions)
    {
      var c := ReadCredentials(body);
      if c.Err? {
        return Failed(c.error);
      }
      var success := server.Register(c.value.value.username, c.value.value.password);
      WriteBoolean(success);
      input := c.value.rest;
      return Handled;
    }

    /** sendNotAuthenticatedResponse: a single `false`; the request body is
        left unread. */
    method Refuse(body: seq<byte>) returns (o: Outcome)
      modifies this
      ensures o == Handled && input == body && username == old(username) && conditions == old(conditions)
      ensures output == old(output) + Write(BoolResponse(false)).bytes
    {
      WriteBoolean(false);
      input := body;
      return Handled;
    }

    /** handlePut: read the key and the value, store them and write `true`. */
    method HandlePut(body: seq<byte>) returns (o: Outcome)
      requires Valid()
      modifies this, server
      ensures Valid()
      ensures !o.Handled? ==> unchanged(this) && unchanged(server)
      ensures old(username).None? ==>
        (o == Handled && unchanged(server) && input == body && username == None && conditions == old(conditions) &&
         output == old(output) + Write(BoolResponse(false)).bytes)
      ensures old(username).Some? && ReadPair(body).Err? ==> o == Failed(ReadPair(body).error)
      ensures old(username).Some? && ReadPair(body).Ok? ==>
        var kv := ReadPair(body).value;
        && o == Handled && input == kv.rest && username == old(username) && conditions == old(conditions)
        && output == old(output) + Write(BoolResponse(true)).bytes
        && server.store == old(server.store)[kv.value.key := kv.value.value]
        && server.users == old(server.users) && server.activeSessions == old(server.activeSessions)
    {
      if username.None? {
        o := Refuse(body);
        return;
      }
      var kv := ReadPair(body);
      if kv.Err? {
        return Failed(kv.error);
      }
      server.Put(kv.value.value.key, kv.value.value.value);
      WriteBoolean(true);
      input := kv.value.rest;
      return Handled;
    }

    /** handleGet: read the key and write `true`, then the value's length and
        bytes, an absent key as the length 0. */
    method HandleGet(body: seq<byte>) returns (o: Outcome)
      requires Valid()
      modifies this, server
      ensures Valid() && unchanged(server)
      ensures !o.Handled? ==> unchanged(this)
      ensures old(username).None? ==>
        (o == Handled && input == body && username == None && conditions == old(conditions) &&
         output == old(output) + Write(BoolResponse(false)).bytes)
      ensures old(username).Some? && ReadUTF(body).Err? ==> o == Failed(ReadUTF(body).error)
      ensures old(username).Some? && ReadUTF(body).Ok? ==>
        var key := ReadUTF(body).value;
        && o == Handled && input == key.rest && username == old(username) && conditions == old(conditions)
        && output == old(output) + Write(ValueResponse(server.Get(key.value))).bytes
    {
      if username.None? {
        o := Refuse(body);
        return;
      }
      var key := ReadUTF(body);
      if key.Err? {
        return Failed(key.error);
      }
      var value := server.Get(key.value.value);
      ValueResponseLayout(value);
      output := output + [BoolByte(true)] + Int32Bytes(|Flat(value)|) + Flat(value);
      input := key.value.rest;
      return Handled;
    }

    /** handleMultiPut: read the pair count and the pairs into a map (a later
        duplicate key replacing an earlier one), store them all and write
        `true`. */
    method HandleMultiPut(body: seq<byte>) returns (o: Outcome)
      requires Valid()
      modifies this, server
      ensures Valid()
      ensures !o.Handled? ==> unchanged(this) && unchanged(server)
      ensures old(username).None? ==>
        (o == Handled && unchanged(server) && input == body && username == None && conditions == old(conditions) &&
         output == old(output) + Write(BoolResponse(false)).bytes)
      ensures old(username).Some? && ReadPairs(body).Err? ==> o == Failed(ReadPairs(body).error)
      ensures old(username).Some? && ReadPairs(body).Ok? ==>
        var pairs := ReadPairs(body).value;
        && o == Handled && input == pairs.rest && username == old(username) && conditions == old(conditions)
        && output == old(output) + Write(BoolResponse(true)).bytes
        && server.store == old(server.store) + pairs.value
        && server.users == old(server.users) && server.activeSessions == old(server.activeSessions)
    {
      if username.None? {
        o := Refuse(body);
        return;
      }
      var count := ReadInt(body);
      if count.Err? {
        return Failed(count.error);
      }
      var pairs := ReadEntries(count.value.rest, count.value.value);
      if pairs.Err? {
        return Failed(pairs.error);
      }
      server.MultiPut(pairs.value.value);
      WriteBoolean(true);
      input := pairs.value.rest;
      return Handled;
    }

    /** handleMultiGet: read the key count and the keys into a set, then
        write `true`, the number of keys found and each of them with its
        value, in the result's iteration order. */
    method HandleMultiGet(body: seq<byte>) returns (o: Outcome)
      requires Valid()
      modifies this, server
      ensures Valid() && unchanged(server)
      ensures !o.Handled? ==> unchanged(this)
      ensures old(username).None? ==>
        (o == Handled && input == body && username == None && conditions == old(conditions) &&
         output == old(output) + Write(BoolResponse(false)).bytes)
      ensures old(username).Some? && ReadKeySet(body).Err? ==> o == Failed(ReadKeySet(body).error)
      ensures old(username).Some? && ReadKeySet(body).Ok? ==>
        var keys := ReadKeySet(body).value;
        var result := Selected(server.store, keys.value);
        && o == Handled && input == keys.rest && username == old(username) && conditions == old(conditions)
        && |result| <= MAX_INT32
        && exists order | IsOrderOf(order, result.Keys) ::
             output == old(output) + Write(MultiGetResponse(order, result)).bytes
    {
      if username.None? {
        o := Refuse(body);
        return;
      }
      var count := ReadInt(body);
      if count.Err? {
        return Failed(count.error);
      }
      var keys := ReadKeys(count.value.rest, count.value.value);
      if keys.Err? {
        return Failed(keys.error);
      }
      var result := server.MultiGet(keys.value.value);
      WriteMultiGetReply(result, keys.value.value);
      input := keys.value.rest;
      return Handled;
    }

    /** The reply of handleMultiGet: `true`, the result's size, then every
        entry of the result. */
    method WriteMultiGetReply(result: map<Str, ByteArray>, ghost keys: set<Str>)
      requires KeysFitUtf(keys) && result.Keys <= keys && |keys| <= MAX_INT32
      modifies this
      ensures |result| <= MAX_INT32
      ensures exists order | IsOrderOf(order, result.Keys) ::
        output == old(output) + Write(MultiGetResponse(order, result)).bytes
      ensures input == old(input) && username == old(username) && conditions == old(conditions)
    {
      var w := WriteEntries(Present(result));
      ghost var order :| IsOrderOf(order, result.Keys) && w == Write(EntriesFields(EntriesOf(order, Present(result))));
      MultiGetReplyFits(order, result, keys, w);
      var reply := [BoolByte(true)] + Int32Bytes(|result|) + w.bytes;
      assert reply == Write(MultiGetResponse(order, result)).bytes;
      output := output + reply;
    }

    /** handleGetWhen: read the key, the condition key and the condition
        value, and hand the request to a thread of its own.  There is no
        login check, and no reply is written here. */
    method HandleGetWhen(body: seq<byte>) returns (o: Outcome)
      requires Valid()
      modifies this
      ensures Valid()
      ensures !o.Handled? ==> unchanged(this)
      ensures ReadCondition(body).Err? ==> o == Failed(ReadCondition(body).error)
      ensures ReadCondition(body).Ok? ==>
        && o == Handled && input == ReadCondition(body).value.rest
        && conditions == old(conditions) + [ReadCondition(body).value.value]
        && output == old(output) && username == old(username)
    {
      var cond := ReadCondition(body);
      if cond.Err? {
        return Failed(cond.error);
      }
      conditions := conditions + [cond.value.value];
      input := cond.value.rest;
      return Handled;
    }

    /** handleLogout: end the session of the logged-in user, if any, and
        forget the user; nothing is written. */
    method HandleLogout(body: seq<byte>) returns (o: Outcome)
      requires Valid()
      modifies this, server
      ensures Valid()
      ensures o == Handled && input == body && output == old(output) && username == None
      ensures conditions == old(conditions)
      ensures server.activeSessions == (if old(username).Some? then old(server.activeSessions) - {old(username).value}
                                        else old(server.activeSessions))
      ensures server.store == old(server.store) && server.users == old(server.users)
    {
      if username.Some? {
        server.Logout(username.value);
        username := None;
      }
      input := body;
      return Handled;
    }
  }
}

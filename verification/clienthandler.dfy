/** Server/ClientHandler.java: the older per-connection thread that speaks in
    serialized request and response objects.  Its `run` loop reads one
    request object at a time; authentication and registration are always
    served, every other request is answered "Not authenticated" until a
    user has logged in on the connection.  A logout request, or a failure
    to read, logs the recorded user out and ends the loop.

    The object streams become the sequence of `responses` written so far
    and the `Incoming` value each readObject call yields. */
module ObjectStreamHandler {
  import opened Wire
  import opened Store

  /** The request objects a client sends. */
  datatype Request =
    | AuthRequest(username: Str, password: Str)
    | RegisterRequest(username: Str, password: Str)
    | PutRequest(key: Str, value: ByteArray)
    | GetRequest(key: Str)
    | MultiPutRequest(pairs: map<Str, ByteArray>)
    | MultiGetRequest(keys: set<Str>)
    | LogoutRequest
    | OtherRequest      // a Request of a class no branch of the loop tests for

  /** What one readObject call yields. */
  datatype Incoming =
    | Received(request: Request)
    | StreamFailure     // IOException or ClassNotFoundException
    | NotARequest       // an object of another class: the cast to Request throws

  /** The extra field of GetResponse and MultiGetResponse. */
  datatype Payload =
    | NoPayload
    | Value(value: Option<ByteArray>)
    | Values(values: map<Str, ByteArray>)

  datatype Response = Response(success: bool, message: string, payload: Payload)

  const AUTH_OK := "Authentication successful"
  const AUTH_FAILED := "Authentication failed"
  const REGISTER_OK := "Registration successful"
  const REGISTER_TAKEN := "Username already exists"
  const PUT_OK := "Put successful"
  const GET_OK := "Get successful"
  const MULTI_PUT_OK := "MultiPut successful"
  const MULTI_GET_OK := "MultiGet successful"
  const NOT_AUTHENTICATED := "Not authenticated"

  function GetResponse(value: Option<ByteArray>): Response {
    Response(true, GET_OK, Value(value))
  }

  function MultiGetResponse(values: map<Str, ByteArray>): Response {
    Response(true, MULTI_GET_OK, Values(values))
  }

  /** How one pass of the loop ends. */
  datatype Outcome =
    | Continue    // the loop reads the next request
    | Blocked     // authenticate waits at the session cap: nothing has happened yet
    | LoggedOut   // a logout request broke the loop
    | Failed      // reading threw a checked exception: the user was logged out
    | Crashed     // the cast threw: the thread ends without logging out

  /** The requests served whether or not a user is logged in. */
  predicate Ungated(r: Request) {
    r.AuthRequest? || r.RegisterRequest?
  }

  /** Whether the password is the one registered for the user. */
  predicate Known(users: map<Str, Str>, username: Str, password: Str) {
    username in users && users[username] == password
  }

  /** Registration never removes a user nor changes a password. */
  ghost predicate UsersGrow(before: map<Str, Str>, after: map<Str, Str>) {
    forall u | u in before :: u in after && after[u] == before[u]
  }

  class ClientHandler {
    var username: Option<Str>
    var responses: seq<Response>
    var running: bool
    const server: Server

    /** The server keeps its cap, and the recorded user is a registered one. */
    ghost predicate Valid()
      reads this, server
    {
      server.Valid() && (username.Some? ==> username.value in server.users)
    }

    constructor(server: Server)
      requires server.Valid()
      ensures this.server == server && username == None && responses == [] && running
      ensures Valid()
    {
      this.server := server;
      username := None;
      responses := [];
      running := true;
    }

    /** handleLogout: the recorded user, if any, leaves the active sessions. */
    method HandleLogout()
      requires Valid()
      modifies server
      ensures Valid()
      ensures server.activeSessions ==
        (if username.Some? then old(server.activeSessions) - {username.value} else old(server.activeSessions))
      ensures server.store == old(server.store) && server.users == old(server.users)
      ensures username.None? ==> unchanged(server)
    {
      if username.Some? {
        server.Logout(username.value);
      }
    }

    /** handleAuth: a successful authentication records the user; the
        response's flag is the result of authenticate. */
    method HandleAuth(u: Str, p: Str) returns (o: Outcome)
      requires Valid()
      modifies this, server
      ensures Valid() && running == old(running)
      ensures o == Blocked <==> Known(old(server.users), u, p) && |old(server.activeSessions)| >= server.maxSessions
      ensures o == Blocked ==> unchanged(this) && unchanged(server)
      ensures o != Blocked ==> o == Continue
      ensures o == Continue ==>
        (var success := Known(old(server.users), u, p);
         && responses == old(responses) + [Response(success, if success then AUTH_OK else AUTH_FAILED, NoPayload)]
         && username == (if success then Some(u) else old(username))
         && server.activeSessions == (if success then old(server.activeSessions) + {u} else old(server.activeSessions)))
      ensures server.store == old(server.store) && server.users == old(server.users)
    {
      var r := server.Authenticate(u, p);
      if r == WouldBlock {
        return Blocked;
      }
      var success := r == Admitted;
      if success {
        username := Some(u);
      }
      responses := responses + [Response(success, if success then AUTH_OK else AUTH_FAILED, NoPayload)];
      return Continue;
    }

    /** handleRegister: the response says whether the name was free. */
    method HandleRegister(u: Str, p: Str)
      requires Valid()
      modifies this, server
      ensures Valid() && username == old(username) && running == old(running)
      ensures var success := u !in old(server.users);
        && responses == old(responses) + [Response(success, if success then REGISTER_OK else REGISTER_TAKEN, NoPayload)]
        && server.users == (if success then old(server.users)[u := p] else old(server.users))
      ensures server.store == old(server.store) && server.activeSessions == old(server.activeSessions)
    {
      var success := server.Register(u, p);
      responses := responses + [Response(success, if success then REGISTER_OK else REGISTER_TAKEN, NoPayload)];
    }

    /** One pass of the loop of run: read a request, let it through the
        authentication gate, serve it and write the response. */
    method Step(incoming: Incoming) returns (o: Outcome)
      requires Valid() && running
      modifies this, server
      ensures Valid()
      ensures UsersGrow(old(server.users), server.users)
      ensures running <==> o == Continue || o == Blocked
      ensures o == Blocked ==> unchanged(this) && unchanged(server) && incoming.Received? && incoming.request.AuthRequest?
      ensures |responses| <= |old(responses)| + 1
      // a read that throws a checked exception logs the user out
      ensures incoming.StreamFailure? ==>
        && o == Failed && responses == old(responses) && username == old(username)
        && server.store == old(server.store) && server.users == old(server.users)
        && server.activeSessions ==
             (if old(username).Some? then old(server.activeSessions) - {old(username).value} else old(server.activeSessions))
      // an object that is not a request ends the thread with the user still active
      ensures incoming.NotARequest? ==>
        o == Crashed && responses == old(responses) && username == old(username) && unchanged(server)
      // the gate: without a user only authentication and registration are served
      ensures incoming.Received? && !Ungated(incoming.request) && old(username).None? ==>
        && o == Continue && username == None && unchanged(server)
        && responses == old(responses) + [Response(false, NOT_AUTHENTICATED, NoPayload)]
      ensures incoming.Received? && incoming.request.AuthRequest? ==>
        (var u, p := incoming.request.username, incoming.request.password;
         && (o == Blocked <==> Known(old(server.users), u, p) && |old(server.activeSessions)| >= server.maxSessions)
         && (o != Blocked ==>
               var success := Known(old(server.users), u, p);
               && o == Continue
               && responses == old(responses) + [Response(success, if success then AUTH_OK else AUTH_FAILED, NoPayload)]
               && username == (if success then Some(u) else old(username))
               && server.activeSessions == (if success then old(server.activeSessions) + {u} else old(server.activeSessions))
               && server.store == old(server.store) && server.users == old(server.users)))
      ensures incoming.Received? && incoming.request.RegisterRequest? ==>
        (var u, p := incoming.request.username, incoming.request.password;
         var success := u !in old(server.users);
         && o == Continue && username == old(username)
         && responses == old(responses) + [Response(success, if success then REGISTER_OK else REGISTER_TAKEN, NoPayload)]
         && server.users == (if success then old(server.users)[u := p] else old(server.users))
         && server.store == old(server.store) && server.activeSessions == old(server.activeSessions))
      // with a user recorded, the store operations are served
      ensures incoming.Received? && !Ungated(incoming.request) && old(username).Some? ==>
        && username == old(username) && server.users == old(server.users)
        && (!incoming.request.LogoutRequest? ==> o == Continue && server.activeSessions == old(server.activeSessions))
        && (incoming.request.PutRequest? ==>
              && server.store == old(server.store)[incoming.request.key := incoming.request.value]
              && responses == old(responses) + [Response(true, PUT_OK, NoPayload)])
        && (incoming.request.GetRequest? ==>
              && server.store == old(server.store)
              && responses == old(responses) + [GetResponse(server.Get(incoming.request.key))])
        && (incoming.request.MultiPutRequest? ==>
              && server.store == old(server.store) + incoming.request.pairs
              && responses == old(responses) + [Response(true, MULTI_PUT_OK, NoPayload)])
        && (incoming.request.MultiGetRequest? ==>
              && server.store == old(server.store)
              && responses == old(responses) + [MultiGetResponse(Selected(server.store, incoming.request.keys))])
        && (incoming.request.OtherRequest? ==> server.store == old(server.store) && responses == old(responses))
        && (incoming.request.LogoutRequest? ==>
              && o == LoggedOut && responses == old(responses) && server.store == old(server.store)
              && server.activeSessions == old(server.activeSessions) - {old(username).value})
    {
      match incoming {
        case StreamFailure =>
          HandleLogout();
          running := false;
          return Failed;
        case NotARequest =>
          running := false;
          return Crashed;
        case Received(request) =>
          if request.AuthRequest? {
            o := HandleAuth(request.username, request.password);
            return;
          } else if request.RegisterRequest? {
            HandleRegister(request.username, request.password);
            return Continue;
          } else if username.None? {
            responses := responses + [Response(false, NOT_AUTHENTICATED, NoPayload)];
            return Continue;
          }
          match request {
            case PutRequest(key, value) =>
              server.Put(key, value);
              responses := responses + [Response(true, PUT_OK, NoPayload)];
            case GetRequest(key) =>
              responses := responses + [GetResponse(server.Get(key))];
            case MultiPutRequest(pairs) =>
              server.MultiPut(pairs);
              responses := responses + [Response(true, MULTI_PUT_OK, NoPayload)];
            case MultiGetRequest(keys) =>
              var values := server.MultiGet(keys);
              responses := responses + [MultiGetResponse(values)];
            case LogoutRequest =>
              HandleLogout();
              running := false;
              return LoggedOut;
            case OtherRequest =>
          }
          return Continue;
      }
    }

    /** run: serve the requests in order until the stream is exhausted, a
        request blocks, or the loop ends.  `consumed` counts the requests
        read; a blocked authentication is not counted, being not yet served. */
    method Run(inputs: seq<Incoming>) returns (consumed: nat, o: Outcome)
      requires Valid() && running
      modifies this, server
      ensures Valid()
      ensures UsersGrow(old(server.users), server.users)
      ensures consumed <= |inputs|
      ensures |responses| <= |old(responses)| + consumed
      ensures o == Continue ==> consumed == |inputs| && running
      ensures o == Blocked ==> consumed < |inputs| && running
      ensures o != Continue && o != Blocked ==> 0 < consumed && !running
      ensures (o == LoggedOut || o == Failed) && username.Some? ==> username.value !in server.activeSessions
      ensures o == Crashed ==> inputs[consumed - 1].NotARequest?
      ensures o == Blocked ==> inputs[consumed].Received? && inputs[consumed].request.AuthRequest?
    {
      consumed := 0;
      o := Continue;
      while consumed < |inputs|
        invariant consumed <= |inputs| && Valid() && running && o == Continue
        invariant |responses| <= |old(responses)| + consumed
        invariant UsersGrow(old(server.users), server.users)
        decreases |inputs| - consumed
      {
        o := Step(inputs[consumed]);
        if o == Blocked {
          return;
        }
        consumed := consumed + 1;
        if o != Continue {
          return;
        }
      }
    }
  }
}

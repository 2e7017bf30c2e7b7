/** Server/Server.java: the shared state of the key-value store, the user
    registry and the set of logged-in users, capped at `maxSessions`.

    `authenticate` waits on a condition while the cap is reached; the
    sequential model returns `WouldBlock` there instead, the call having not
    yet taken effect. */
module Store {
  import opened Wire

  /** What a call of authenticate does. */
  datatype AuthResult =
    | Denied       // unknown user or wrong password: returns false
    | Admitted     // the user is (now) active: returns true
    | WouldBlock   // the cap is reached: the caller waits on sessionAvailable

  /** The values of the requested keys that the store holds: multiGet's result. */
  function Selected(store: map<Str, ByteArray>, keys: set<Str>): (r: map<Str, ByteArray>)
    ensures r.Keys == keys * store.Keys
    ensures forall k | k in r :: r[k] == store[k]
  {
    map k | k in keys * store.Keys :: store[k]
  }

  class Server {
    var store: map<Str, ByteArray>
    var users: map<Str, Str>
    var activeSessions: set<Str>
    const maxSessions: int

    /** No more users are active than the cap allows. */
    ghost predicate Valid()
      reads this
    {
      |activeSessions| <= maxSessions || activeSessions == {}
    }

    constructor(maxSessions: int)
      ensures this.maxSessions == maxSessions
      ensures store == map[] && users == map[] && activeSessions == {}
      ensures Valid()
    {
      this.maxSessions := maxSessions;
      store := map[];
      users := map[];
      activeSessions := {};
    }

    /** authenticate: an unknown user or a wrong password is refused with no
        change; otherwise the user is added to the active sessions once fewer
        than `maxSessions` are active.  A user already active is admitted
        again without a second session, but still waits at the cap. */
    method Authenticate(username: Str, password: Str) returns (r: AuthResult)
      requires Valid()
      modifies this
      ensures Valid()
      ensures store == old(store) && users == old(users)
      ensures r == Denied <==> username !in users || users[username] != password
      ensures r == WouldBlock <==> username in users && users[username] == password && |old(activeSessions)| >= maxSessions
      ensures r == Admitted ==> activeSessions == old(activeSessions) + {username} && |old(activeSessions)| < maxSessions
      ensures r != Admitted ==> unchanged(this)
    {
      if username !in users || users[username] != password {
        return Denied;
      }
      if |activeSessions| >= maxSessions {
        return WouldBlock;
      }
      activeSessions := activeSessions + {username};
      return Admitted;
    }

    /** logout: the user leaves the active sessions (no change if absent). */
    method Logout(username: Str)
      requires Valid()
      modifies this
      ensures Valid()
      ensures activeSessions == old(activeSessions) - {username}
      ensures store == old(store) && users == old(users)
    {
      activeSessions := activeSessions - {username};
    }

    /** register: refused with no change for a known user; otherwise the
        password is recorded. */
    method Register(username: Str, password: Str) returns (ok: bool)
      requires Valid()
      modifies this
      ensures Valid()
      ensures ok <==> username !in old(users)
      ensures ok ==> users == old(users)[username := password]
      ensures !ok ==> unchanged(this)
      ensures store == old(store) && activeSessions == old(activeSessions)
    {
      if username in users {
        return false;
      }
      users := users[username := password];
      return true;
    }

    /** get: the stored value, or null for an absent key. */
    function Get(key: Str): (r: Option<ByteArray>)
      reads this
      ensures r.None? <==> key !in store
      ensures r.Some? ==> r.value == store[key]
    {
      if key in store then Some(store[key]) else None
    }

    /** put: afterwards get(key) returns the value; every other key keeps its value. */
    method Put(key: Str, value: ByteArray)
      requires Valid()
      modifies this
      ensures Valid()
      ensures store == old(store)[key := value]
      ensures Get(key) == Some(value)
      ensures forall k | k != key :: Get(k) == old(Get(k))
      ensures users == old(users) && activeSessions == old(activeSessions)
    {
      store := store[key := value];
    }

    /** multiPut (putAll): every key of `pairs` maps to its value; every other
        key keeps its value. */
    method MultiPut(pairs: map<Str, ByteArray>)
      requires Valid()
      modifies this
      ensures Valid()
      ensures store == old(store) + pairs
      ensures forall k | k in pairs :: Get(k) == Some(pairs[k])
      ensures forall k | k !in pairs :: Get(k) == old(Get(k))
      ensures users == old(users) && activeSessions == old(activeSessions)
    {
      store := store + pairs;
    }

    /** multiGet: the loop over the requested keys that copies every value
        the store holds; absent keys are left out of the result. */
    method MultiGet(keys: set<Str>) returns (result: map<Str, ByteArray>)
      ensures result.Keys == keys * store.Keys
      ensures forall k | k in result :: result[k] == store[k]
      ensures result == Selected(store, keys)
    {
      result := map[];
      var remaining := keys;
      while remaining != {}
        invariant remaining <= keys
        invariant result.Keys == (keys - remaining) * store.Keys
        invariant forall k | k in result :: result[k] == store[k]
        decreases remaining
      {
        var key :| key in remaining;
        var value := Get(key);
        if value.Some? {
          result := result[key := value.value];
        }
        remaining := remaining - {key};
      }
    }
  }
}

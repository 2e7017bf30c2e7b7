/** Key/value entry lists and key lists as the store's protocol writes and
    reads them: each entry is a UTF key, an int32 value length and the value
    bytes (a null value is written as length 0); a key list is a sequence of
    UTF keys.  HashMap and HashSet iteration order is unspecified, so an
    order of the keys is a parameter of the encoders, and the methods that
    iterate a map or a set pick the next key arbitrarily. */
module Entries {
  import opened Wire

  /** One map entry; `None` is a Java null value. */
  datatype Entry = Entry(key: Str, value: Option<ByteArray>)

  /** The value a reader sees for an entry: a null value arrives as an empty array. */
  function Flat(v: Option<ByteArray>): ByteArray {
    if v.Some? then v.value else []
  }

  // ---------------------------------------------------------------------
  // Iteration orders

  /** The keys an order visits. */
  function Elems(order: seq<Str>): (keys: set<Str>)
    ensures forall i | 0 <= i < |order| :: order[i] in keys
    decreases |order|
  {
    if order == [] then {} else Elems(order[..|order| - 1]) + {order[|order| - 1]}
  }

  lemma {:induction false} ElemsMember(order: seq<Str>, k: Str)
    ensures k in Elems(order) <==> k in order
    decreases |order|
  {
    if order != [] {
      var init := order[..|order| - 1];
      ElemsMember(init, k);
      assert order == init + [order[|order| - 1]];
    }
  }

  predicate Distinct(order: seq<Str>) {
    forall i, j | 0 <= i < j < |order| :: order[i] != order[j]
  }

  /** `order` lists every key of `keys` exactly once. */
  predicate IsOrderOf(order: seq<Str>, keys: set<Str>) {
    Distinct(order) && Elems(order) == keys
  }

  lemma {:induction false} OrderLength(order: seq<Str>, keys: set<Str>)
    requires IsOrderOf(order, keys)
    ensures |order| == |keys|
    decreases |order|
  {
    if order != [] {
      var init, last := order[..|order| - 1], order[|order| - 1];
      assert last !in Elems(init) by {
        ElemsMember(init, last);
      }
      OrderLength(init, Elems(init));
    }
  }

  /** Appending a key that is not yet visited keeps an order of the visited keys. */
  lemma OrderSnoc(done: seq<Str>, key: Str, visited: set<Str>)
    requires IsOrderOf(done, visited) && key !in visited
    ensures IsOrderOf(done + [key], visited + {key})
  {
    assert (done + [key])[..|done|] == done;
    ElemsMember(done, key);
  }

  /** Some order of a finite set of keys, as HashSet iteration would produce one. */
  ghost function SomeOrder(keys: set<Str>): (order: seq<Str>)
    ensures IsOrderOf(order, keys)
    decreases keys
  {
    if keys == {} then []
    else
      var k :| k in keys;
      var init := SomeOrder(keys - {k});
      OrderSnoc(init, k, keys - {k});
      assert keys - {k} + {k} == keys;
      init + [k]
  }

  lemma {:induction false} ElemsAppend(a: seq<Str>, b: seq<Str>)
    ensures Elems(a + b) == Elems(a) + Elems(b)
    decreases |b|
  {
    if b == [] {
      assert a + b == a;
    } else {
      var init := b[..|b| - 1];
      assert (a + b)[..|a + b| - 1] == a + init;
      ElemsAppend(a, init);
    }
  }

  /** Appending an order of the keys not yet visited completes an order of all the keys. */
  lemma OrderAppend(done: seq<Str>, tail: seq<Str>, visited: set<Str>, remaining: set<Str>)
    requires IsOrderOf(done, visited) && IsOrderOf(tail, remaining) && visited !! remaining
    ensures IsOrderOf(done + tail, visited + remaining)
  {
    var order := done + tail;
    forall i, j | 0 <= i < j < |order| ensures order[i] != order[j] {
      if j >= |done| && i < |done| {
        assert order[i] == done[i] && order[j] == tail[j - |done|];
      }
    }
    ElemsAppend(done, tail);
  }

  /** The entries of `m`, visited in the given order. */
  function EntriesOf(order: seq<Str>, m: map<Str, Option<ByteArray>>): (es: seq<Entry>)
    requires forall i | 0 <= i < |order| :: order[i] in m
    ensures |es| == |order|
    ensures forall i | 0 <= i < |order| :: es[i] == Entry(order[i], m[order[i]])
  {
    seq(|order|, i requires 0 <= i < |order| => Entry(order[i], m[order[i]]))
  }

  /** A map without nulls, viewed as a map that may hold nulls. */
  function Present(m: map<Str, ByteArray>): (p: map<Str, Option<ByteArray>>)
    ensures p.Keys == m.Keys && forall k | k in m :: p[k] == Some(m[k])
  {
    map k | k in m :: Some(m[k])
  }

  /** What a reader gets for a map that may hold nulls: nulls become empty arrays. */
  function Flatten(m: map<Str, Option<ByteArray>>): (r: map<Str, ByteArray>)
    ensures r.Keys == m.Keys && forall k | k in m :: r[k] == Flat(m[k])
  {
    map k | k in m :: Flat(m[k])
  }

  // ---------------------------------------------------------------------
  // Writing entries

  /** The writes for one entry: writeUTF(key), writeInt(length), write(value). */
  function EntryFields(e: Entry): seq<Field> {
    match e.value
    case Some(v) => [UtfField(e.key), IntField(|v|), RawField(v)]
    case None => [UtfField(e.key), IntField(0)]
  }

  function EntriesFields(es: seq<Entry>): seq<Field>
    decreases |es|
  {
    if es == [] then [] else EntriesFields(es[..|es| - 1]) + EntryFields(es[|es| - 1])
  }

  /** Every key fits in a writeUTF. */
  predicate EntriesFit(es: seq<Entry>) {
    forall i | 0 <= i < |es| :: |es[i].key| <= MAX_UTF
  }

  /** The bytes of one entry whose key fits. */
  function EntryBytes(e: Entry): seq<byte>
    requires |e.key| <= MAX_UTF
  {
    U16Bytes(|e.key|) + e.key + Int32Bytes(|Flat(e.value)|) + Flat(e.value)
  }

  function EntriesBytes(es: seq<Entry>): seq<byte>
    requires EntriesFit(es)
    decreases |es|
  {
    if es == [] then [] else EntriesBytes(es[..|es| - 1]) + EntryBytes(es[|es| - 1])
  }

  /** Bytes a reader consumes for a list of entries. */
  function EntriesSize(es: seq<Entry>): nat
    decreases |es|
  {
    if es == [] then 0 else EntriesSize(es[..|es| - 1]) + 6 + |es[|es| - 1].key| + |Flat(es[|es| - 1].value)|
  }

  /** An entry's writes: only the key can make them throw, and then nothing
      of the entry is written; otherwise the key, the value length and the
      value are written, a null value as the length 0. */
  lemma EntryWrite(e: Entry)
    ensures Write(EntryFields(e)).failed <==> |e.key| > MAX_UTF
    ensures Write(EntryFields(e)).failed ==> Write(EntryFields(e)).bytes == []
    ensures !Write(EntryFields(e)).failed ==> Write(EntryFields(e)).bytes == EntryBytes(e)
  {
    var fs := EntryFields(e);
    if |e.key| <= MAX_UTF {
      if e.value.Some? {
        assert fs == [fs[0]] + [fs[1], fs[2]];
        WriteAppend([fs[0]], [fs[1], fs[2]]);
        assert [fs[1], fs[2]] == [fs[1]] + [fs[2]];
        WriteAppend([fs[1]], [fs[2]]);
        WriteSingle(fs[0]);
        WriteSingle(fs[1]);
        WriteSingle(fs[2]);
      } else {
        assert fs == [fs[0]] + [fs[1]];
        WriteAppend([fs[0]], [fs[1]]);
        WriteSingle(fs[0]);
        WriteSingle(fs[1]);
        assert Int32Bytes(0) + [] == Int32Bytes(0);
      }
    }
  }

  /** A null value is written exactly as an empty array would be. */
  lemma NullWrittenAsEmpty(key: Str)
    ensures Write(EntryFields(Entry(key, None))) == Write(EntryFields(Entry(key, Some([]))))
  {
    EntryWrite(Entry(key, None));
    EntryWrite(Entry(key, Some([])));
  }

  /** Writing a list of entries throws exactly when some key is too long;
      when it does not, it emits each entry in turn. */
  lemma {:induction false} EntriesWrite(es: seq<Entry>)
    ensures Write(EntriesFields(es)).failed <==> !EntriesFit(es)
    ensures EntriesFit(es) ==> Write(EntriesFields(es)).bytes == EntriesBytes(es)
    decreases |es|
  {
    if es != [] {
      var init, last := es[..|es| - 1], es[|es| - 1];
      EntriesWrite(init);
      WriteAppend(EntriesFields(init), EntryFields(last));
      EntryWrite(last);
      assert forall i | 0 <= i < |init| :: init[i] == es[i];
    }
  }

  /** The bytes of a list of entries are as many as a reader consumes. */
  lemma {:induction false} EntriesBytesSize(es: seq<Entry>)
    requires EntriesFit(es)
    ensures |EntriesBytes(es)| == EntriesSize(es)
    decreases |es|
  {
    if es != [] {
      EntriesBytesSize(es[..|es| - 1]);
    }
  }

  lemma EntriesFieldsAppend(a: seq<Entry>, b: seq<Entry>)
    ensures EntriesFields(a + b) == EntriesFields(a) + EntriesFields(b)
    decreases |b|
  {
    if b == [] {
      assert a + b == a;
    } else {
      var init := b[..|b| - 1];
      assert (a + b)[..|a + b| - 1] == a + init;
      EntriesFieldsAppend(a, init);
    }
  }

  lemma EntriesOfSnoc(done: seq<Str>, key: Str, m: map<Str, Option<ByteArray>>)
    requires (forall i | 0 <= i < |done| :: done[i] in m) && key in m
    ensures EntriesOf(done + [key], m) == EntriesOf(done, m) + [Entry(key, m[key])]
  {
  }

  lemma EntriesBytesSnoc(es: seq<Entry>, e: Entry)
    requires EntriesFit(es) && |e.key| <= MAX_UTF
    ensures EntriesFit(es + [e]) && EntriesBytes(es + [e]) == EntriesBytes(es) + EntryBytes(e)
  {
    assert (es + [e])[..|es|] == es;
  }

  /** When the entry of `key` throws, writing it and then any further keys
      leaves the bytes before it and a failure. */
  lemma FailedEntryStops(done: seq<Str>, key: Str, tail: seq<Str>, m: map<Str, Option<ByteArray>>)
    requires forall i | 0 <= i < |done| :: done[i] in m
    requires forall i | 0 <= i < |tail| :: tail[i] in m
    requires key in m
    requires EntriesFit(EntriesOf(done, m)) && |key| > MAX_UTF
    ensures Write(EntriesFields(EntriesOf(done + [key] + tail, m))) == Written(EntriesBytes(EntriesOf(done, m)), true)
  {
    var next := done + [key];
    var e := Entry(key, m[key]);
    assert EntriesOf(next + tail, m) == EntriesOf(done, m) + [e] + EntriesOf(tail, m);
    EntriesFieldsAppend(EntriesOf(done, m) + [e], EntriesOf(tail, m));
    EntriesFieldsAppend(EntriesOf(done, m), [e]);
    assert EntriesFields([e]) == EntryFields(e);
    EntriesWrite(EntriesOf(done, m));
    EntryWrite(e);
    WriteAppend(EntriesFields(EntriesOf(done, m)), EntryFields(e));
    WriteAppend(EntriesFields(EntriesOf(done, m) + [e]), EntriesFields(EntriesOf(tail, m)));
  }

  /** One iteration that writes the entry of a key that fits keeps the loop invariant. */
  lemma EntryWritten(m: map<Str, Option<ByteArray>>, done: seq<Str>, remaining: set<Str>, key: Str)
    requires remaining <= m.Keys && key in remaining && |key| <= MAX_UTF
    requires IsOrderOf(done, m.Keys - remaining) && EntriesFit(EntriesOf(done, m))
    ensures IsOrderOf(done + [key], m.Keys - (remaining - {key}))
    ensures EntriesFit(EntriesOf(done + [key], m))
    ensures EntriesBytes(EntriesOf(done + [key], m)) == EntriesBytes(EntriesOf(done, m)) + EntryBytes(Entry(key, m[key]))
  {
    EntriesOfSnoc(done, key, m);
    EntriesBytesSnoc(EntriesOf(done, m), Entry(key, m[key]));
    OrderSnoc(done, key, m.Keys - remaining);
    assert m.Keys - remaining + {key} == m.Keys - (remaining - {key});
  }

  /** An iteration whose key does not fit ends the loop: what is on the
      stream is what writing every entry in some order leaves. */
  lemma EntryThrows(m: map<Str, Option<ByteArray>>, done: seq<Str>, remaining: set<Str>, key: Str)
    requires remaining <= m.Keys && key in remaining && |key| > MAX_UTF
    requires IsOrderOf(done, m.Keys - remaining) && EntriesFit(EntriesOf(done, m))
    ensures exists order | IsOrderOf(order, m.Keys) ::
      Written(EntriesBytes(EntriesOf(done, m)), true) == Write(EntriesFields(EntriesOf(order, m)))
  {
    var tail := SomeOrder(remaining - {key});
    OrderSnoc(done, key, m.Keys - remaining);
    OrderAppend(done + [key], tail, m.Keys - remaining + {key}, remaining - {key});
    assert m.Keys - remaining + {key} + (remaining - {key}) == m.Keys;
    FailedEntryStops(done, key, tail, m);
  }

  /** Every key of the map fits in a writeUTF. */
  predicate MapFits(m: map<Str, Option<ByteArray>>) {
    forall k | k in m :: |k| <= MAX_UTF
  }

  /** The entries of a map, in any order of its keys, fit exactly when the map's keys do. */
  lemma OrderFits(order: seq<Str>, m: map<Str, Option<ByteArray>>)
    requires IsOrderOf(order, m.Keys)
    ensures EntriesFit(EntriesOf(order, m)) <==> MapFits(m)
  {
    var es := EntriesOf(order, m);
    if EntriesFit(es) {
      forall k | k in m ensures |k| <= MAX_UTF {
        ElemsMember(order, k);
        var i :| 0 <= i < |order| && order[i] == k;
        assert es[i].key == k;
      }
    }
  }

  /** The loop shared by Request.serializeMap, the server's MULTI_GET
      response and Client.multiPut: write every entry of `m`, in HashMap
      iteration order.  When a key is too long, writeUTF throws and the
      entries written before it stay on the stream. */
  method WriteEntries(m: map<Str, Option<ByteArray>>) returns (w: Written)
    ensures exists order | IsOrderOf(order, m.Keys) :: w == Write(EntriesFields(EntriesOf(order, m)))
  {
    var bytes: seq<byte> := [];
    var remaining := m.Keys;
    ghost var done: seq<Str> := [];
    while remaining != {}
      invariant remaining <= m.Keys
      invariant IsOrderOf(done, m.Keys - remaining)
      invariant EntriesFit(EntriesOf(done, m)) && bytes == EntriesBytes(EntriesOf(done, m))
      decreases remaining
    {
      var key :| key in remaining;
      var entry := Write(EntryFields(Entry(key, m[key])));
      EntryWrite(Entry(key, m[key]));
      if entry.failed {
        EntryThrows(m, done, remaining, key);
        return Written(bytes, true);
      }
      EntryWritten(m, done, remaining, key);
      bytes := bytes + entry.bytes;
      done := done + [key];
      remaining := remaining - {key};
    }
    assert m.Keys - remaining == m.Keys;
    EntriesWrite(EntriesOf(done, m));
    return Written(bytes, false);
  }

  // ---------------------------------------------------------------------
  // Reading entries

  /** A key and a value as read from the stream. */
  datatype Pair = Pair(key: Str, value: ByteArray)

  /** readUTF a key, readInt a length, then `new byte[length]` and readFully. */
  function ReadPair(s: seq<byte>): Result<Read<Pair>> {
    match ReadUTF(s)
    case Err(e) => Err(e)
    case Ok(key) =>
      match ReadInt(key.rest)
      case Err(e) => Err(e)
      case Ok(length) =>
        match ReadBytes(length.rest, length.value)
        case Err(e) => Err(e)
        case Ok(value) => Ok(Read(Pair(key.value, value.value), value.rest))
  }

  /** Read one entry after those already read and store it, overwriting an
      earlier value under the same key (HashMap.put). */
  function ReadEntry(acc: Read<map<Str, ByteArray>>): Result<Read<map<Str, ByteArray>>> {
    match ReadPair(acc.rest)
    case Err(e) => Err(e)
    case Ok(p) => Ok(Read(acc.value[p.value.key := p.value.value], p.rest))
  }

  /** The map built by a loop that reads `n` entries; the loop runs no
      iteration for a count that is not positive. */
  function DecodeEntries(s: seq<byte>, n: int): (r: Result<Read<map<Str, ByteArray>>>)
    ensures r.Err? ==> r.error == EndOfStream || r.error == NegativeArraySize
    decreases n
  {
    if n <= 0 then Ok(Read(map[], s))
    else
      match DecodeEntries(s, n - 1)
      case Err(e) => Err(e)
      case Ok(acc) => ReadEntry(acc)
  }

  lemma {:induction false} DecodeEntriesError(s: seq<byte>, i: int, n: int)
    requires i <= n && DecodeEntries(s, i).Err?
    ensures DecodeEntries(s, n) == Err(DecodeEntries(s, i).error)
    decreases n - i
  {
    if i < n {
      DecodeEntriesError(s, i, n - 1);
    }
  }

  /** What a failed read of a key and a value leaves on the stream: nothing
      once the end of the stream is reached, since a DataInputStream
      consumes the bytes it finds before it throws; after a negative value
      length, the bytes that follow the length. */
  function PairUnread(s: seq<byte>): (left: seq<byte>)
    requires ReadPair(s).Err?
    ensures ReadPair(s).error == EndOfStream ==> left == []
    ensures ReadPair(s).error == NegativeArraySize ==> |left| + 6 <= |s| && left == s[|s| - |left|..]
  {
    if ReadPair(s).error == NegativeArraySize then
      var key := ReadUTF(s).value;
      ReadInt(key.rest).value.rest
    else []
  }

  /** What a failed loop reading `n` entries leaves on the stream: what the
      failing entry leaves. */
  function DecodeEntriesUnread(s: seq<byte>, n: int): (left: seq<byte>)
    requires DecodeEntries(s, n).Err?
    ensures DecodeEntries(s, n).error == EndOfStream ==> left == []
    decreases n
  {
    match DecodeEntries(s, n - 1)
    case Err(_) => DecodeEntriesUnread(s, n - 1)
    case Ok(acc) => PairUnread(acc.rest)
  }

  /** The `for` loop that reads `n` entries into a fresh HashMap (server
      MULTI_PUT, client multiGet). */
  method ReadEntries(s: seq<byte>, n: int32) returns (r: Result<Read<map<Str, ByteArray>>>)
    ensures r == DecodeEntries(s, n)
  {
    var pairs: map<Str, ByteArray> := map[];
    var input := s;
    var count: nat := if n < 0 then 0 else n;
    for i := 0 to count
      invariant DecodeEntries(s, i) == Ok(Read(pairs, input))
    {
      // the loop body: readUTF key, readInt length, readFully the value, put
      var next := ReadEntry(Read(pairs, input));
      if next.Err? {
        DecodeEntriesError(s, i + 1, n);
        return Err(next.error);
      }
      pairs := next.value.value;
      input := next.value.rest;
    }
    return Ok(Read(pairs, input));
  }

  /** Storing entries one after another into a map, later ones overwriting earlier ones. */
  function ApplyEntries(acc: map<Str, ByteArray>, es: seq<Entry>): map<Str, ByteArray>
    decreases |es|
  {
    if es == [] then acc
    else ApplyEntries(acc, es[..|es| - 1])[es[|es| - 1].key := Flat(es[|es| - 1].value)]
  }

  lemma Regroup(a: seq<byte>, b: seq<byte>, c: seq<byte>, d: seq<byte>, rest: seq<byte>)
    ensures a + b + c + d + rest == a + b + (c + (d + rest))
  {
  }

  /** An entry written is read back as its key and value, a null value as
      an empty array, and exactly its bytes are consumed. */
  lemma ReadPairAfterWrite(e: Entry, rest: seq<byte>)
    requires |e.key| <= MAX_UTF
    ensures ReadPair(EntryBytes(e) + rest) == Ok(Read(Pair(e.key, Flat(e.value)), rest))
  {
    var v := Flat(e.value);
    Regroup(U16Bytes(|e.key|), e.key, Int32Bytes(|v|), v, rest);
    ReadUTFAfterWrite(e.key, Int32Bytes(|v|) + (v + rest));
    ReadIntAfterWrite(|v|, v + rest);
    assert (v + rest)[..|v|] == v && (v + rest)[|v|..] == rest;
  }

  lemma DecodeEntriesSnoc(a: seq<byte>, rest: seq<byte>, n: int, acc: map<Str, ByteArray>, last: Entry)
    requires n > 0 && |last.key| <= MAX_UTF
    requires DecodeEntries(a + (EntryBytes(last) + rest), n - 1) == Ok(Read(acc, EntryBytes(last) + rest))
    ensures DecodeEntries((a + EntryBytes(last)) + rest, n) == Ok(Read(acc[last.key := Flat(last.value)], rest))
  {
    assert (a + EntryBytes(last)) + rest == a + (EntryBytes(last) + rest);
    ReadPairAfterWrite(last, rest);
  }

  /** Entries written one after another are read back, in order, into the
      map that storing them one by one would build. */
  lemma {:induction false} DecodeEntriesAfterWrite(es: seq<Entry>, rest: seq<byte>)
    requires EntriesFit(es)
    ensures DecodeEntries(EntriesBytes(es) + rest, |es|) == Ok(Read(ApplyEntries(map[], es), rest))
    decreases |es|
  {
    if es == [] {
      assert EntriesBytes(es) + rest == rest;
    } else {
      var init, last := es[..|es| - 1], es[|es| - 1];
      DecodeEntriesAfterWrite(init, EntryBytes(last) + rest);
      DecodeEntriesSnoc(EntriesBytes(init), rest, |es|, ApplyEntries(map[], init), last);
    }
  }

  /** Of several entries under one key, the last one is the value stored. */
  lemma {:induction false} LaterEntryWins(acc: map<Str, ByteArray>, es: seq<Entry>, i: nat)
    requires i < |es|
    requires forall j | i < j < |es| :: es[j].key != es[i].key
    ensures es[i].key in ApplyEntries(acc, es) && ApplyEntries(acc, es)[es[i].key] == Flat(es[i].value)
    decreases |es|
  {
    if i < |es| - 1 {
      var init := es[..|es| - 1];
      assert forall j | i < j < |init| :: init[j] == es[j];
      LaterEntryWins(acc, init, i);
    }
  }

  /** Storing the entries of a map, in any order that visits each key once,
      rebuilds that map (with nulls read as empty arrays). */
  lemma {:induction false} ApplyEntriesOfOrder(order: seq<Str>, m: map<Str, Option<ByteArray>>)
    requires forall i, j | 0 <= i < j < |order| :: order[i] != order[j]
    requires Elems(order) <= m.Keys
    ensures ApplyEntries(map[], EntriesOf(order, m)) == map k | k in Elems(order) :: Flat(m[k])
    decreases |order|
  {
    if order != [] {
      var init := order[..|order| - 1];
      assert EntriesOf(order, m)[..|order| - 1] == EntriesOf(init, m);
      ApplyEntriesOfOrder(init, m);
    }
  }

  /** A map written in any iteration order is read back as the same map,
      nulls as empty arrays. */
  lemma MapRoundTrip(order: seq<Str>, m: map<Str, Option<ByteArray>>, rest: seq<byte>)
    requires IsOrderOf(order, m.Keys) && EntriesFit(EntriesOf(order, m))
    ensures DecodeEntries(EntriesBytes(EntriesOf(order, m)) + rest, |m|) == Ok(Read(Flatten(m), rest))
  {
    var es := EntriesOf(order, m);
    assert |es| == |m| by {
      OrderLength(order, m.Keys);
    }
    assert ApplyEntries(map[], es) == Flatten(m) by {
      ApplyEntriesOfOrder(order, m);
      assert (map k | k in Elems(order) :: Flat(m[k])) == Flatten(m);
    }
    DecodeEntriesAfterWrite(es, rest);
  }

  // ---------------------------------------------------------------------
  // Key lists (MULTI_GET request)

  function KeysFields(order: seq<Str>): seq<Field>
    decreases |order|
  {
    if order == [] then [] else KeysFields(order[..|order| - 1]) + [UtfField(order[|order| - 1])]
  }

  predicate KeysFit(order: seq<Str>) {
    forall i | 0 <= i < |order| :: |order[i]| <= MAX_UTF
  }

  function KeysBytes(order: seq<Str>): seq<byte>
    requires KeysFit(order)
    decreases |order|
  {
    if order == [] then [] else KeysBytes(order[..|order| - 1]) + U16Bytes(|order[|order| - 1]|) + order[|order| - 1]
  }

  /** Writing keys throws exactly when one is too long; otherwise it emits each key in turn. */
  lemma {:induction false} KeysWrite(order: seq<Str>)
    ensures Write(KeysFields(order)).failed <==> !KeysFit(order)
    ensures KeysFit(order) ==> Write(KeysFields(order)).bytes == KeysBytes(order)
    decreases |order|
  {
    if order != [] {
      var init, last := order[..|order| - 1], order[|order| - 1];
      KeysWrite(init);
      WriteAppend(KeysFields(init), [UtfField(last)]);
      assert forall i | 0 <= i < |init| :: init[i] == order[i];
      if |last| <= MAX_UTF {
        WriteSingle(UtfField(last));
      } else {
        assert Write([UtfField(last)]).failed;
      }
    }
  }

  lemma KeysFieldsAppend(a: seq<Str>, b: seq<Str>)
    ensures KeysFields(a + b) == KeysFields(a) + KeysFields(b)
    decreases |b|
  {
    if b == [] {
      assert a + b == a;
    } else {
      var init := b[..|b| - 1];
      assert (a + b)[..|a + b| - 1] == a + init;
      KeysFieldsAppend(a, init);
    }
  }

  /** When one key throws, writing it and then any further keys leaves the
      bytes before it and a failure. */
  lemma FailedKeyStops(done: seq<Str>, key: Str, tail: seq<Str>)
    requires KeysFit(done) && |key| > MAX_UTF
    ensures Write(KeysFields(done + [key] + tail)) == Written(KeysBytes(done), true)
  {
    KeysFieldsAppend(done + [key], tail);
    assert (done + [key])[..|done|] == done;
    KeysWrite(done);
    WriteAppend(KeysFields(done), [UtfField(key)]);
    WriteAppend(KeysFields(done + [key]), KeysFields(tail));
  }

  lemma KeysBytesSnoc(done: seq<Str>, key: Str)
    requires KeysFit(done) && |key| <= MAX_UTF
    ensures KeysFit(done + [key]) && KeysBytes(done + [key]) == KeysBytes(done) + (U16Bytes(|key|) + key)
  {
    assert (done + [key])[..|done|] == done;
  }

  /** The loop of Client.multiGet that writes every key of a HashSet in its
      iteration order. */
  method WriteKeys(keys: set<Str>) returns (w: Written)
    ensures exists order | IsOrderOf(order, keys) :: w == Write(KeysFields(order))
  {
    var bytes: seq<byte> := [];
    var remaining := keys;
    ghost var done: seq<Str> := [];
    while remaining != {}
      invariant remaining <= keys
      invariant IsOrderOf(done, keys - remaining)
      invariant KeysFit(done) && bytes == KeysBytes(done)
      decreases remaining
    {
      var key :| key in remaining;
      var field := Write([UtfField(key)]);
      WriteSingle(UtfField(key));
      if field.failed {
        ghost var tail := SomeOrder(remaining - {key});
        OrderSnoc(done, key, keys - remaining);
        OrderAppend(done + [key], tail, keys - remaining + {key}, remaining - {key});
        assert keys - remaining + {key} + (remaining - {key}) == keys;
        FailedKeyStops(done, key, tail);
        return Written(bytes, true);
      }
      KeysBytesSnoc(done, key);
      OrderSnoc(done, key, keys - remaining);
      assert keys - remaining + {key} == keys - (remaining - {key});
      bytes := bytes + field.bytes;
      done := done + [key];
      remaining := remaining - {key};
    }
    assert keys - remaining == keys;
    KeysWrite(done);
    return Written(bytes, false);
  }

  function ReadKey(acc: Read<set<Str>>): Result<Read<set<Str>>> {
    match ReadUTF(acc.rest)
    case Err(e) => Err(e)
    case Ok(key) => Ok(Read(acc.value + {key.value}, key.rest))
  }

  /** The set built by a loop that reads `n` keys into a fresh HashSet. */
  function DecodeKeys(s: seq<byte>, n: int): (r: Result<Read<set<Str>>>)
    ensures r.Ok? ==> forall k | k in r.value.value :: |k| <= MAX_UTF
    ensures r.Ok? ==> |r.value.value| <= if n < 0 then 0 else n
    decreases n
  {
    if n <= 0 then Ok(Read({}, s))
    else
      match DecodeKeys(s, n - 1)
      case Err(e) => Err(e)
      case Ok(acc) => ReadKey(acc)
  }

  lemma {:induction false} DecodeKeysError(s: seq<byte>, i: int, n: int)
    requires i <= n && DecodeKeys(s, i).Err?
    ensures DecodeKeys(s, n) == Err(DecodeKeys(s, i).error)
    decreases n - i
  {
    if i < n {
      DecodeKeysError(s, i, n - 1);
    }
  }

  /** The `for` loop of the server's MULTI_GET handler that reads the keys. */
  method ReadKeys(s: seq<byte>, n: int32) returns (r: Result<Read<set<Str>>>)
    ensures r == DecodeKeys(s, n)
  {
    var keys: set<Str> := {};
    var input := s;
    var count: nat := if n < 0 then 0 else n;
    for i := 0 to count
      invariant DecodeKeys(s, i) == Ok(Read(keys, input))
    {
      // the loop body: readUTF key, add
      var next := ReadKey(Read(keys, input));
      if next.Err? {
        DecodeKeysError(s, i + 1, n);
        return Err(next.error);
      }
      keys := next.value.value;
      input := next.value.rest;
    }
    return Ok(Read(keys, input));
  }

  lemma DecodeKeysSnoc(a: seq<byte>, key: Str, rest: seq<byte>, n: int, acc: set<Str>)
    requires n > 0 && |key| <= MAX_UTF
    requires DecodeKeys(a + (U16Bytes(|key|) + key + rest), n - 1) == Ok(Read(acc, U16Bytes(|key|) + key + rest))
    ensures DecodeKeys((a + U16Bytes(|key|) + key) + rest, n) == Ok(Read(acc + {key}, rest))
  {
    assert (a + U16Bytes(|key|) + key) + rest == a + (U16Bytes(|key|) + key + rest);
    ReadUTFAfterWrite(key, rest);
  }

  /** Keys written one after another are read back as the set of those keys. */
  lemma {:induction false} DecodeKeysAfterWrite(order: seq<Str>, rest: seq<byte>)
    requires KeysFit(order)
    ensures DecodeKeys(KeysBytes(order) + rest, |order|) == Ok(Read(Elems(order), rest))
    decreases |order|
  {
    if order == [] {
      assert KeysBytes(order) + rest == rest;
    } else {
      var init, last := order[..|order| - 1], order[|order| - 1];
      assert init + [last] == order;
      DecodeKeysAfterWrite(init, U16Bytes(|last|) + last + rest);
      DecodeKeysSnoc(KeysBytes(init), last, rest, |order|, Elems(init));
    }
  }

  /** A key set written in any iteration order is read back as the same set. */
  lemma KeysRoundTrip(order: seq<Str>, keys: set<Str>, rest: seq<byte>)
    requires IsOrderOf(order, keys) && forall k | k in keys :: |k| <= MAX_UTF
    ensures !Write(KeysFields(order)).failed
    ensures DecodeKeys(Write(KeysFields(order)).bytes + rest, |keys|) == Ok(Read(keys, rest))
  {
    OrderLength(order, keys);
    assert KeysFit(order);
    KeysWrite(order);
    DecodeKeysAfterWrite(order, rest);
  }
}

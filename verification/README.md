# A verified model of the SD-Project key-value store

The system is a multi-user key-value store written in Java. A server keeps a
map from string keys to byte arrays, a registry of users and passwords, and
the set of logged-in users, which is capped at `maxSessions`. Clients connect
over TCP and speak a binary protocol built on `DataOutputStream` and
`DataInputStream`. Each request is an int32 tag (AUTH, REGISTER, PUT, GET,
MULTI_PUT, MULTI_GET, GET_WHEN, LOGOUT) followed by a body. The store
operations are refused until the connection has logged in. Some other pieces
sit beside the protocol:

- a frame codec (`Frame`, `FrameList`);
- a tag demultiplexer that routes received frames to the threads waiting for
  their tag;
- an older connection handler that exchanges serialized request and response
  objects;
- an account registry.

This Dafny project models those parts and proves properties about them:

| file | module | models |
|---|---|---|
| `wire.dfy` | `Wire` | `writeInt`/`readInt`, `writeUTF`/`readUTF`, `writeBoolean`/`readBoolean`, `readFully`, and a run of writes that stops at the first `writeUTF` that throws |
| `frame.dfy` | `FrameCodec` | `Common/Frame.java` |
| `framelist.dfy` | `FrameListCodec` | `Common/FrameList.java` |
| `entries.dfy` | `Entries` | the key/value entry loops and key-list loops shared by the request, reply and client code |
| `request.dfy` | `Requests` | `Common/Request.java`: the tags and `serializeMap` |
| `protocol.dfy` | `Protocol` | the byte layout of every request and reply, and the decoders on both sides |
| `demux.dfy` | `TagDemultiplexer` | `Common/Demultiplexer.java` |
| `accounts.dfy` | `AccountRegistry` | `Common/Accounts.java` |
| `server.dfy` | `Store` | `Server/Server.java` |
| `dispatcher.dfy` | `ServerDemultiplexer` | `Server/Demultiplexer.java`, the server's per-connection request loop |
| `client.dfy` | `KeyValueClient` | `Client/Client.java` |
| `clienthandler.dfy` | `ObjectStreamHandler` | `Server/ClientHandler.java` |

Modelling conventions:

- **Bytes and strings.** A Java `byte[]` is a `seq<byte>` of at most 2^31-1
  elements. A Java `String` is taken as the bytes `writeUTF` emits for it.
- **Writes and decoders.** A run of writes is a list of `Field`s. `Write`
  folds the list into the bytes emitted and a flag saying whether a write
  threw. A `writeUTF` of more than 65535 bytes throws before writing
  anything, and the bytes written before it stay on the stream. Decoders take
  the unread bytes and return the value and the rest, or the exception
  (`EndOfStream`, `NegativeArraySize`).
- **Iteration order.** `HashMap` and `HashSet` iteration order is
  unspecified. The methods that iterate pick the next key arbitrarily, and
  their contracts hold for *some* order of the keys.
- **Blocking.** A call that blocks returns an outcome saying so. A blocked
  `authenticate` (at the session cap) has had no effect yet: `WouldBlock`
  from the server, `Blocked` from the handlers. A blocked `receive` (on an
  empty queue) returns `Waiting` with its waiter increment already in the
  table, and resumes later by `Recheck`.

## Model

| member | source | states |
|---|---|---|
| Wire.Int32Bytes | src/Common/Frame.java:20 | writeInt emits exactly four bytes |
| Wire.Int32RoundTrip | src/Common/Frame.java:27 | the four big-endian bytes of an int32 decode back to the same int32 |
| Wire.Int32Sign | src/Common/Frame.java:29-30 | an int32 is negative exactly when its first byte has the top bit set |
| Wire.ReadInt | src/Common/Frame.java:27 | readInt fails with end of stream exactly when fewer than four bytes remain, and otherwise consumes four bytes |
| Wire.ReadIntAfterWrite | src/Common/Frame.java:27 | readInt after writeInt gives back the value and the bytes after it |
| Wire.ReadIntPrefix | src/Common/Frame.java:27 | reading an int from a truncated encoding fails when fewer than four bytes survive, and succeeds otherwise |
| Wire.U16Bytes | src/Common/Frame.java:21 | the writeUTF length prefix is two bytes, big-endian |
| Wire.ReadUTF | src/Common/Frame.java:28 | readUTF fails only at the end of the stream, and a string it reads is at most 65535 bytes |
| Wire.ReadUTFAfterWrite | src/Common/Frame.java:28 | readUTF after writeUTF gives back the string and the bytes after it |
| Wire.ReadUTFPrefix | src/Common/Frame.java:28 | readUTF from a truncated encoding fails unless the whole string survives |
| Wire.ReadBytes | src/Common/Frame.java:30-31 | `new byte[length]` with readFully fails with NegativeArraySize for a negative length and with end of stream when fewer bytes remain; otherwise the result has exactly `length` bytes |
| Wire.ReadBoolean | src/Client/Client.java:28 | readBoolean fails only on an empty stream, and any non-zero byte reads as true |
| Wire.FieldBytes | src/Common/Frame.java:19-24 | the byte count of each kind of write (4 for an int, 2 + length for a string, 1 for a boolean, the array itself for `write`) |
| Wire.WriteAppend | src/Common/Frame.java:19-24 | two runs of writes in a row: the second adds its bytes only if the first did not throw |
| Wire.WriteSingle | src/Common/Frame.java:21 | one write emits its bytes, or throws and emits nothing |
| FrameCodec.Deserialize | src/Common/Frame.java:26-33 | a frame read successfully consumes at least ten bytes |
| FrameCodec.SerializeLayout | src/Common/Frame.java:19-24 | serialize throws exactly when the string is over 65535 bytes, leaving only the tag written; otherwise it emits tag, string, data length and data in that order |
| FrameCodec.SerializedSize | src/Common/Frame.java:19-24 | a serialized frame is 10 + string length + data length bytes |
| FrameCodec.ReadHeader | src/Common/Frame.java:27-29 | the header reads back as the tag, the string and the length |
| FrameCodec.RoundTrip | src/Common/Frame.java:19-33 | deserialize(serialize(f)) == f, consuming exactly the bytes written |
| FrameCodec.NegativeLengthFails | src/Common/Frame.java:29-30 | a header with a negative data length is refused with NegativeArraySize, whatever follows |
| FrameCodec.ShortDataFails | src/Common/Frame.java:31 | a header that declares more data than remains is refused at the end of the stream |
| FrameCodec.TruncatedFails | src/Common/Frame.java:26-33 | every proper prefix of a serialized frame is refused with end of stream |
| FrameCodec.TruncatedEncodingFails | src/Common/Frame.java:26-33 | the same, for any tag, string and data |
| FrameListCodec.FramesFieldsWrite | src/Common/FrameList.java:12-14 | writing the frames throws exactly when one frame cannot be written; otherwise it emits each frame's bytes in list order |
| FrameListCodec.SerializeLayout | src/Common/FrameList.java:10-16 | serialize emits the count, then every frame in order, and throws exactly when a frame does |
| FrameListCodec.EmptyListIsFourBytes | src/Common/FrameList.java:10-16 | the empty list is the four bytes of the count 0 |
| FrameListCodec.DecodeFrames | src/Common/FrameList.java:21-23 | reading n frames yields exactly n frames |
| FrameListCodec.ReadNext | src/Common/FrameList.java:22 | one more iteration adds exactly one frame |
| FrameListCodec.DecodeFramesError | src/Common/FrameList.java:21-23 | once a frame fails to read, the loop fails with that same error |
| FrameListCodec.Deserialize | src/Common/FrameList.java:18-25 | the for loop adding one frame per iteration computes exactly the list `Decode` defines |
| FrameListCodec.DecodeFramesBytes | src/Common/FrameList.java:21-23 | the bytes of the frames, read with their count, give back the frames in order |
| FrameListCodec.RoundTrip | src/Common/FrameList.java:10-25 | deserialize(serialize(fs)) == fs, consuming exactly the bytes written |
| FrameListCodec.NonPositiveCountIsEmpty | src/Common/FrameList.java:20-21 | a zero or negative count yields the empty list and consumes only the count |
| FrameListCodec.TooFewFramesFails | src/Common/FrameList.java:20-23 | a count larger than the number of frames present fails at the end of the stream |
| FrameListCodec.FramesPrefixFails | src/Common/FrameList.java:20-23 | reading all the frames from a proper prefix of their bytes fails at the end of the stream |
| FrameListCodec.TruncatedListFails | src/Common/FrameList.java:18-25 | every proper prefix of a serialized list fails at the end of the stream |
| Entries.Elems | src/Common/Request.java:23 | every key an iteration order visits is in its key set |
| Entries.ElemsMember | src/Common/Request.java:23 | a key is in an order's key set exactly when the order lists it |
| Entries.OrderLength | src/Common/Request.java:22-23 | an order that lists each key once is as long as the key set, so the count written equals the number of entries written |
| Entries.SomeOrder | src/Common/Request.java:23 | every finite key set has an iteration order |
| Entries.EntriesOf | src/Common/Request.java:23-25 | the entries visited in an order are the map's entries under those keys, in that order |
| Entries.Present | src/Client/Client.java:75-78 | a map without nulls, as a map whose values may be null |
| Entries.Flatten | src/Common/Request.java:26-31 | what a reader sees of a map: each null value becomes an empty array, and the keys are the same |
| Entries.EntryWrite | src/Common/Request.java:24-31 | an entry throws exactly when its key is too long, and then nothing of it is written; otherwise key, length and value are written, a null as length 0 |
| Entries.NullWrittenAsEmpty | src/Common/Request.java:26-31 | a null value is written exactly as an empty array |
| Entries.EntriesWrite | src/Common/Request.java:23-32 | a list of entries throws exactly when some key is too long; otherwise each entry is emitted in turn |
| Entries.EntriesBytesSize | src/Common/Request.java:23-32 | the bytes written for the entries are as many as a reader consumes |
| Entries.FailedEntryStops | src/Common/Request.java:24 | once a key throws, the bytes before it stay on the stream and nothing after it is written |
| Entries.EntryWritten | src/Common/Request.java:23-31 | one iteration that writes an entry keeps the loop invariant: the keys done form an order and their bytes are on the stream |
| Entries.EntryThrows | src/Common/Request.java:24 | an iteration whose key throws leaves exactly what writing the whole map in some order leaves |
| Entries.OrderFits | src/Common/Request.java:23-24 | the entries fit in writeUTF, in any order, exactly when the map's keys do |
| Entries.WriteEntries | src/Common/Request.java:23-32 | the entry loop leaves what writing every entry, in some iteration order, leaves |
| Entries.DecodeEntries | src/Server/Demultiplexer.java:181-187 | reading n entries fails only at the end of the stream or on a negative value length |
| Entries.PairUnread | src/Client/Client.java:98-103 | a key and value read that fails at the end of the stream leaves nothing unread; on a negative length it leaves a proper suffix, at least the key's two length bytes and the four value-length bytes consumed |
| Entries.DecodeEntriesUnread | src/Client/Client.java:97-104 | an entry loop that fails at the end of the stream leaves nothing unread |
| Entries.DecodeEntriesError | src/Server/Demultiplexer.java:181-187 | once an entry fails to read, the loop fails with that same error |
| Entries.ReadEntries | src/Server/Demultiplexer.java:179-187 | the for loop that reads n entries into a fresh HashMap computes exactly `DecodeEntries` |
| Entries.ReadPairAfterWrite | src/Server/Demultiplexer.java:182-185 | a written entry reads back as its key and value, a null as an empty array, consuming exactly its bytes |
| Entries.DecodeEntriesAfterWrite | src/Server/Demultiplexer.java:181-187 | written entries read back into the map that storing them one by one builds |
| Entries.LaterEntryWins | src/Server/Demultiplexer.java:186 | when a key repeats, the last entry's value is the one stored |
| Entries.ApplyEntriesOfOrder | src/Server/Demultiplexer.java:180-187 | storing a map's entries, in any order visiting each key once, rebuilds the map, with nulls as empty arrays |
| Entries.MapRoundTrip | src/Common/Request.java:23-32 | a map written in any iteration order reads back as the same map, with nulls as empty arrays |
| Entries.KeysWrite | src/Client/Client.java:88-90 | writing keys throws exactly when one is too long; otherwise each key is emitted in turn |
| Entries.FailedKeyStops | src/Client/Client.java:89 | once a key throws, the keys before it stay on the stream and nothing after it is written |
| Entries.WriteKeys | src/Client/Client.java:88-90 | the key loop leaves what writing every key, in some iteration order, leaves |
| Entries.DecodeKeys | src/Server/Demultiplexer.java:205-209 | the keys read fit in writeUTF, and there are at most n of them (none for a count that is not positive) |
| Entries.DecodeKeysError | src/Server/Demultiplexer.java:207-209 | once a key fails to read, the loop fails with that same error |
| Entries.ReadKeys | src/Server/Demultiplexer.java:205-209 | the for loop that adds n keys to a fresh HashSet computes exactly `DecodeKeys` |
| Entries.DecodeKeysAfterWrite | src/Server/Demultiplexer.java:207-209 | keys written in a row read back as the set of those keys |
| Entries.KeysRoundTrip | src/Client/Client.java:86-90 | a key set whose keys fit, written in any order, reads back as the same set |
| Requests.Tag | src/Common/Request.java:9-16 | every operation's tag lies between AUTH and LOGOUT |
| Requests.OperationOf | src/Server/Demultiplexer.java:24-51 | a tag names an operation exactly when it lies in 1..8, and then it is that operation's tag; any other value falls to the default branch |
| Requests.TagsDistinct | src/Common/Request.java:9-16 | the eight tags are distinct, and each names its own operation |
| Requests.MapFieldsLayout | src/Common/Request.java:22-32 | serializeMap's writes throw exactly when a key is too long; otherwise they emit the count, then every entry |
| Requests.SerializeMap | src/Common/Request.java:18-36 | serializeMap fails exactly when a key is too long (the buffer is lost); otherwise it returns the count and the entries in some iteration order |
| Requests.SerializedMapReadsBack | src/Common/Request.java:18-36 | a serialized map reads back, count first, as the same map with nulls as empty arrays |
| Requests.SerializedMapSize | src/Common/Request.java:22-31 | the output is 4 bytes plus 2 + key length + 4 + value length per entry |
| Requests.NullsWrittenAsEmpty | src/Common/Request.java:25-31 | entry lists that differ only in nulls versus empty arrays are written identically |
| Requests.NullValuesAsEmpty | src/Common/Request.java:25-31 | serializeMap writes a map holding nulls exactly as the map holding empty arrays in their place |
| Protocol.RequestStartsWithTag | src/Server/Demultiplexer.java:21-24 | every request starts with its operation's tag, which the server reads back and dispatches to that operation |
| Protocol.CredentialsLayout | src/Client/Client.java:23-25 | the credentials throw exactly when either string is too long; a too-long password leaves the username written |
| Protocol.CredentialsAgree | src/Server/Demultiplexer.java:98-99 | the server reads back exactly the username and password the client wrote |
| Protocol.PutAgree | src/Server/Demultiplexer.java:134-137 | a PUT body throws exactly when the key is too long; otherwise handlePut reads back the key and value, stopping at the end of the body |
| Protocol.GetAgree | src/Server/Demultiplexer.java:155 | a GET body throws exactly when the key is too long; otherwise handleGet reads back the key |
| Protocol.GetWhenAgree | src/Server/Demultiplexer.java:55-59 | a GET_WHEN body throws exactly when a string is too long; otherwise the server reads back key, condition key and condition value |
| Protocol.MultiPutLayout | src/Client/Client.java:73-79 | a MULTI_PUT body throws exactly when a key is too long; otherwise it is serializeMap's output for the pairs |
| Protocol.PairsReadBack | src/Server/Demultiplexer.java:179-187 | bytes written by serializeMap for a map without nulls read back, count first, as that map |
| Protocol.MultiPutAgree | src/Server/Demultiplexer.java:179-187 | a MULTI_PUT body starts with the pair count, and the server reads back exactly the map the client sent |
| Protocol.OrderKeysFit | src/Client/Client.java:88-90 | keys fit in writeUTF in any order exactly when the set's keys do |
| Protocol.MultiGetLayout | src/Client/Client.java:86-90 | a MULTI_GET body throws exactly when a key is too long; otherwise it is the count followed by the keys |
| Protocol.MultiGetAgree | src/Server/Demultiplexer.java:205-209 | the server reads back exactly the key set the client sent |
| Protocol.BoolResponseAgree | src/Server/Demultiplexer.java:107 | a boolean reply is one byte, and the client reads back the same flag |
| Protocol.ValueResponseLayout | src/Server/Demultiplexer.java:160-166 | a GET reply never throws, and an absent key is sent exactly as an empty value |
| Protocol.ReadValueResponse | src/Client/Client.java:61-69 | the client returns null exactly when the flag byte is zero; otherwise the value has the length the reply declares; it fails only at the end of the stream or on a negative declared length |
| Protocol.ValueResponseAgree | src/Client/Client.java:61-69 | the client reads a GET reply back as the value, an absent key as an empty array, consuming exactly the reply |
| Protocol.ReadMultiGetResponse | src/Client/Client.java:93-107 | the client returns null exactly when the flag byte is zero; it fails only at the end of the stream or on a negative value length |
| Protocol.MultiGetResponseUnread | src/Client/Client.java:93-107 | a MULTI_GET reply read that fails at the end of the stream leaves nothing unread |
| Protocol.MultiGetResponseLayout | src/Server/Demultiplexer.java:214-224 | a MULTI_GET reply whose keys fit never throws; it is `true` followed by serializeMap's output for the result |
| Protocol.MultiGetResponseAgree | src/Client/Client.java:93-104 | the client reads a MULTI_GET reply back as exactly the server's result |
| Protocol.RefusalReadsAsNull | src/Client/Client.java:67-69 | a refusal (one `false`) reads as null for get, getWhen and multiGet, consuming only that byte |
| TagDemultiplexer.Enqueue | src/Common/Demultiplexer.java:50-56 | a received frame joins the back of its tag's queue, the entry being created if absent; no other entry changes |
| TagDemultiplexer.AddWaiter | src/Common/Demultiplexer.java:89-94 | receive creates the tag's entry if absent and adds one waiter; no other entry changes |
| TagDemultiplexer.TryClaim | src/Common/Demultiplexer.java:95-106 | a pass claims a frame exactly when the queue is non-empty, and rethrows exactly when it is empty and the reader has failed; otherwise nothing changes |
| TagDemultiplexer.ClaimTakesOldest | src/Common/Demultiplexer.java:96-101 | a claim returns the oldest queued frame and removes it, and the entry disappears exactly when no other waiter and no other frame remain |
| TagDemultiplexer.ClaimedFrameHasTag | src/Common/Demultiplexer.java:85-101 | in a valid table, receive(tag) returns a frame carrying that tag |
| TagDemultiplexer.EnqueueValid | src/Common/Demultiplexer.java:50-56 | the reader's step keeps every entry in use and every frame under its own tag |
| TagDemultiplexer.AddWaiterValid | src/Common/Demultiplexer.java:89-94 | registering a waiter keeps the table valid |
| TagDemultiplexer.TryClaimValid | src/Common/Demultiplexer.java:95-106 | a pass of receive's loop keeps the table valid |
| TagDemultiplexer.ReceiveRestoresWaiters | src/Common/Demultiplexer.java:85-101 | a receive that claims at once leaves the waiter count as it was, and the queue minus its oldest frame |
| TagDemultiplexer.FailedReceiveKeepsWaiter | src/Common/Demultiplexer.java:103-105 | a receive that rethrows on an empty queue leaves its waiter increment, and any entry it created, in the table |
| TagDemultiplexer.StrandedReceiveWaits | src/Common/Demultiplexer.java:94-106 | with no failure recorded, a receive on an empty queue waits with its waiter increment in the table, and every later pass finds the same |
| TagDemultiplexer.QueuedBeforeFailure | src/Common/Demultiplexer.java:96-105 | frames queued before the reader failed are still returned |
| TagDemultiplexer.WithTag | src/Common/Demultiplexer.java:50-55 | the frames of a run that carry a tag, all with that tag |
| TagDemultiplexer.EnqueueAllQueue | src/Common/Demultiplexer.java:46-56 | after any run of received frames, each tag's queue holds its earlier frames followed by that tag's new frames in arrival order (FIFO per tag) |
| TagDemultiplexer.Demultiplexer.constructor | src/Common/Demultiplexer.java:19-20 | a new demultiplexer has an empty table, no recorded exception and its reader running |
| TagDemultiplexer.Demultiplexer.Deliver | src/Common/Demultiplexer.java:47-56 | while the reader runs, its step for a frame is `Enqueue` and keeps the table valid |
| TagDemultiplexer.Demultiplexer.ReaderFailed | src/Common/Demultiplexer.java:61-63 | only an I/O failure is caught: it is recorded for good, the table is untouched and the reader thread ends |
| TagDemultiplexer.Demultiplexer.ReaderCrashed | src/Common/Frame.java:29-30 | a negative frame length ends the reader thread with nothing recorded and the table untouched |
| TagDemultiplexer.Demultiplexer.ReaderStep | src/Common/Demultiplexer.java:44-63 | one pass of the reader loop: a frame is enqueued; an I/O failure is recorded; a negative array size, which the catch does not cover, ends the thread with nothing recorded |
| TagDemultiplexer.Demultiplexer.Receive | src/Common/Demultiplexer.java:85-111 | receive is `AddWaiter` followed by one pass of `TryClaim`, keeping the table valid; the recorded exception and the reader thread are untouched |
| TagDemultiplexer.Demultiplexer.Recheck | src/Common/Demultiplexer.java:95-107 | a woken waiter makes one more pass of `TryClaim`; the recorded exception and the reader thread are untouched |
| AccountRegistry.Accounts.constructor | src/Common/Accounts.java:14-16 | a new registry is empty |
| AccountRegistry.Accounts.GetPassword | src/Common/Accounts.java:25-27 | the registered password, and null exactly for an unknown address |
| AccountRegistry.Accounts.AccountExists | src/Common/Accounts.java:45-47 | true exactly for a registered address |
| AccountRegistry.Accounts.AddAccount | src/Common/Accounts.java:35-37 | the address then exists with that password; every other address is unaffected |
| AccountRegistry.PasswordExactlyForAccounts | src/Common/Accounts.java:25-47 | getPassword returns null exactly for the addresses accountExists denies |
| Store.Selected | src/Server/Server.java:106-120 | multiGet's result holds exactly the requested keys the store has, with the store's values |
| Store.Server.constructor | src/Server/Server.java:19-21 | a new server has no data, no users, no sessions, and the given cap |
| Store.Server.Authenticate | src/Server/Server.java:36-55 | refused with no change exactly for an unknown user or a wrong password; blocks with no change exactly when the cap is reached; otherwise adds the user to the sessions; the cap is kept |
| Store.Server.Logout | src/Server/Server.java:57-65 | the user leaves the sessions; nothing else changes |
| Store.Server.Register | src/Server/Server.java:67-77 | succeeds exactly for an unknown name and records the password; a refusal changes nothing |
| Store.Server.Get | src/Server/Server.java:88-95 | the stored value, and null exactly for an absent key |
| Store.Server.Put | src/Server/Server.java:79-86 | afterwards get(key) is the value, and every other key keeps its value |
| Store.Server.MultiPut | src/Server/Server.java:97-104 | every pair is stored, and every other key keeps its value |
| Store.Server.MultiGet | src/Server/Server.java:106-120 | the loop returns exactly the requested keys the store holds, with their values |
| ServerDemultiplexer.MultiGetReplyFits | src/Server/Demultiplexer.java:213-224 | the reply to keys read by readUTF never throws: `true`, the count, then the entries |
| ServerDemultiplexer.RefusedPutBodyIsUnknownTag | src/Server/Demultiplexer.java:128-132 | a refused PUT leaves its body unread, and for a non-empty key the body's first four bytes never name an operation, so the next handleRequest fails |
| ServerDemultiplexer.Demultiplexer.constructor | src/Server/Demultiplexer.java:15-19 | a new connection has no user and nothing written |
| ServerDemultiplexer.Demultiplexer.WriteBoolean | src/Server/Demultiplexer.java:246-247 | one boolean reply is appended to the output |
| ServerDemultiplexer.Demultiplexer.HandleRequest | src/Server/Demultiplexer.java:21-52 | a missing tag fails with end of stream and an unknown tag fails, both with no effect; for each known tag the effect is that of its handler on the bytes after the tag: AUTH and REGISTER as `HandleAuth` and `HandleRegister`; a store operation without a login is refused with one `false`, nothing else changing; PUT, GET, MULTI_PUT and MULTI_GET with a login as their handlers; GET_WHEN is queued with or without a login; LOGOUT ends the session and forgets the user |
| ServerDemultiplexer.Demultiplexer.HandleAuth | src/Server/Demultiplexer.java:97-112 | the reply is authenticate's answer, a success records the user, and the call blocks exactly when the user is known and the cap is reached |
| ServerDemultiplexer.Demultiplexer.HandleRegister | src/Server/Demultiplexer.java:114-126 | the reply says whether the name was free, and only a free name is recorded |
| ServerDemultiplexer.Demultiplexer.Refuse | src/Server/Demultiplexer.java:243-251 | the refusal writes one `false` and reads nothing of the body |
| ServerDemultiplexer.Demultiplexer.HandlePut | src/Server/Demultiplexer.java:128-147 | refused without a login with one `false`, nothing else changing (store, user, pending conditions); otherwise the key and value read are stored and `true` is written |
| ServerDemultiplexer.Demultiplexer.HandleGet | src/Server/Demultiplexer.java:149-171 | refused without a login with one `false`, nothing else changing (store, user, pending conditions); otherwise the reply carries the stored value (an absent key as length 0), and the store is untouched |
| ServerDemultiplexer.Demultiplexer.HandleMultiPut | src/Server/Demultiplexer.java:173-197 | refused without a login with one `false`, nothing else changing (store, user, pending conditions); otherwise the pairs read are all stored and `true` is written |
| ServerDemultiplexer.Demultiplexer.HandleMultiGet | src/Server/Demultiplexer.java:199-229 | refused without a login with one `false`, nothing else changing (store, user, pending conditions); otherwise the reply is the stored values of exactly the keys read, in some iteration order |
| ServerDemultiplexer.Demultiplexer.WriteMultiGetReply | src/Server/Demultiplexer.java:214-224 | the reply is `true`, the result's size, then every entry of the result |
| ServerDemultiplexer.Demultiplexer.HandleGetWhen | src/Server/Demultiplexer.java:54-63 | there is no login check; the condition read is handed on, and nothing is written |
| ServerDemultiplexer.Demultiplexer.HandleLogout | src/Server/Demultiplexer.java:231-241 | the logged-in user, if any, leaves the sessions and is forgotten; nothing is written |
| KeyValueClient.MultiPutRequestWrites | src/Client/Client.java:72-79 | multiPut writes the tag, the pair count, then the pairs, and only a key can make it throw |
| KeyValueClient.MultiGetRequestWrites | src/Client/Client.java:85-90 | multiGet writes the tag, the key count, then the keys |
| KeyValueClient.Client.constructor | src/Client/Client.java:14-19 | a new client has sent nothing and is open |
| KeyValueClient.Client.Send | src/Client/Client.java:23-26 | the bytes of a run of writes are appended to the output, and it reports whether one threw |
| KeyValueClient.Client.ReceiveBoolean | src/Client/Client.java:28 | one boolean is consumed from the input, or end of stream |
| KeyValueClient.Client.SendCredentials | src/Client/Client.java:21-44 | the tag and the credentials are sent, then the boolean answer is read |
| KeyValueClient.Client.Authenticate | src/Client/Client.java:21-30 | AUTH and the credentials are sent, and the result is the boolean read back |
| KeyValueClient.Client.Register | src/Client/Client.java:32-44 | REGISTER and the credentials are sent, and the result is the boolean read back |
| KeyValueClient.Client.Put | src/Client/Client.java:46-54 | PUT, the key and the value are sent, and one boolean is read and discarded |
| KeyValueClient.Client.ReceiveValue | src/Client/Client.java:61-69 | the reply is read exactly as `ReadValueResponse` decodes it; a failed read leaves nothing unread at the end of the stream, and the bytes after the length after a negative length |
| KeyValueClient.Client.Get | src/Client/Client.java:56-70 | GET and the key are sent, and the reply is read as `ReadValueResponse`, a failed read consuming what the stream had as for `ReceiveValue` |
| KeyValueClient.Client.GetWhen | src/Client/Client.java:110-126 | GET_WHEN, the key and the condition are sent, and the reply is read as for get, failures included |
| KeyValueClient.Client.SendPairs | src/Client/Client.java:72-80 | the MULTI_PUT request goes out in some iteration order and succeeds exactly when every key fits |
| KeyValueClient.Client.MultiPut | src/Client/Client.java:72-83 | the request is sent, then one boolean is read and discarded; a too-long key fails before anything is read |
| KeyValueClient.Client.SendKeys | src/Client/Client.java:85-91 | the MULTI_GET request goes out in some iteration order and succeeds exactly when every key fits |
| KeyValueClient.Client.ReceiveMap | src/Client/Client.java:93-107 | the reply is read exactly as `ReadMultiGetResponse` decodes it; a failed read leaves on the stream what `MultiGetResponseUnread` says |
| KeyValueClient.Client.MultiGet | src/Client/Client.java:85-108 | the request is sent and the reply read as by `ReceiveMap`; a too-long key fails before anything is read |
| KeyValueClient.Client.Logout | src/Client/Client.java:128-131 | only the LOGOUT tag is sent, and no reply is read |
| KeyValueClient.Client.Close | src/Client/Client.java:133-140 | logout is sent, then the socket is closed |
| ObjectStreamHandler.ClientHandler.constructor | src/Server/ClientHandler.java:18-23 | a new handler has no user and no responses, and is running |
| ObjectStreamHandler.ClientHandler.HandleLogout | src/Server/ClientHandler.java:97-101 | the recorded user, if any, leaves the sessions; with no user nothing changes |
| ObjectStreamHandler.ClientHandler.HandleAuth | src/Server/ClientHandler.java:64-70 | the response's flag is authenticate's result with the matching message, a success records the user, and a failure leaves it unchanged |
| ObjectStreamHandler.ClientHandler.HandleRegister | src/Server/ClientHandler.java:72-75 | the message is "Registration successful" or "Username already exists", according to register's result |
| ObjectStreamHandler.ClientHandler.Step | src/Server/ClientHandler.java:29-58 | without a user, every request but auth and register is answered "Not authenticated" and the server is not called; with one, each store request is served; logout and a read failure log the user out; a non-request object ends the thread with the user still active |
| ObjectStreamHandler.ClientHandler.Run | src/Server/ClientHandler.java:26-62 | the loop writes at most one response per request, never removes a user or changes a password, after a logout or a read failure the recorded user is no longer active, and only an authentication request can block the loop |

## Left out

- Concurrency: threads, locks and condition variables are left out. Each call
  runs alone. A call that would wait returns an outcome instead:
  `WouldBlock` for `Server.authenticate` and `Blocked` for the handlers,
  both with no effect, and `Waiting` for `Demultiplexer.receive`, which
  leaves the waiter registered in the table.
- TagDemultiplexer.Demultiplexer.ReaderFailed: the catch records the
  exception without signalling any condition, so a thread already waiting
  rethrows it only if it wakes for another reason. `Recheck` may be called
  at any time, so the model does not capture that such a thread in practice
  stays blocked.
- Store.Server.Authenticate: when the waiting thread is interrupted, the call
  returns false. That case is not modelled, because interrupts are part of
  the concurrency left out.
- The GET_WHEN reply thread is not modelled. `Server/Demultiplexer.java:65`
  calls `server.getWhen`, and `Server/Server.java` defines no such method, so
  only the decoding of the request (`HandleGetWhen`) is modelled. The
  decoded requests are kept in `conditions`.
- ServerDemultiplexer.Demultiplexer.HandleRequest: after a `Failed` outcome,
  `input` is left as it was. The Java stream has already consumed the bytes
  read before the exception, but the connection is dropped after a failure,
  so nothing reads them again.
- Sockets and streams are byte sequences (`input`/`output`, `sent`/`incoming`,
  `responses`). `flush`, `socket.close` and calls on a closed client are not
  modelled.
- Console output is left out: `Client.java` and `Server/Demultiplexer.java`
  print to `System.out`, and `ClientHandler.java` prints a stack trace to
  `System.err` when reading or writing fails.
- Java's modified UTF-8 is not modelled. A `String` is the byte sequence
  `writeUTF` emits, and only its 65535-byte limit is kept.
- `Common/Connection.java`, `Server/ConnectionManager.java`, `Client/CLI.java`,
  `Main.java`, the socket accept loop `Server.start` and the test classes are
  not part of this model. `Demultiplexer.send`, `close`, `getConnection` and
  `start`'s thread creation only delegate to `Connection`. The reader loop's
  step is modelled as `Deliver`, its catch as `ReaderFailed`, and the
  unchecked exception of a negative frame length as `ReaderCrashed`.
- Null values handed to `Server.put`, `Server.multiPut`, `Client.put` or
  `Client.multiPut` are not modelled. The client dereferences them and
  throws; the server would store them. Nulls are modelled where the code
  tests for them: `serializeMap` and the MULTI_GET reply.
- The Java serialization format of `ClientHandler`'s object streams is left
  out. Requests and responses are values. An `IOException` thrown while
  writing a response leads to the same logout as a read failure, and that is
  not modelled separately.
- A `FrameList` is a list of `Frame` values. Its inherited `ArrayList`
  operations are not modelled.
- A frame is `(tag, string, data)`. `authenticate` admits a user who is
  already logged in again, without adding a second session.

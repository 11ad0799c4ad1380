# majordodo messaging core in Dafny

This project models three pieces of majordodo's messaging and worker layer and
proves properties about them:

- **The binary message codec** (`DodoMessageUtils`). `encodeMessage` appends a
  `Message` to a Netty `ByteBuf`. The layout is:
  - a version byte `'a'`;
  - a big-endian `int` type;
  - the length-prefixed message id;
  - opcode-tagged optional fields: reply id (1), worker process id (2), and
    string, int and long parameters (3, 4, 5).

  `decodeMessage` reads these back with the buffer's reader index.
  - **Pure model:** module `MessageCodec` describes the wire format with the
    functions `Encode` and `Decode`.
  - **Imperative model:** module `DodoMessageUtils` is the encoder that writes
    into a `ByteBuf` and the decoder loop that advances its reader index. Both
    are proved to do exactly what `Encode`/`Decode` say.
  - **Round trip:** when encoding `m` does not throw (no parameter value of
    an unsupported class under a non-null key), `Decode(Encode(m).bytes)`
    gives back every field of `m`. Parameters come back as the map of their non-null entries, later entries
    win, and each value keeps its type.
  - **Bytes:** module `Wire` holds Java's `int`/`long` in two's complement,
    big-endian, with both round trips proved. Module `ByteBufs` is the part of
    `ByteBuf` the codec uses.
- **The in-process channel pair** (`JVMChannel`). The class
  `JvmChannels.JVMChannel` has these fields:
  - the `active` flag;
  - the two pending-reply maps (callback and original message, keyed by
    message id);
  - the peer reference;
  - the executor shutdown flag;
  - a log of the messages handed to the receiver and of the callback
    invocations.

  Every method is specified relationally over `Side` snapshots. Predicates
  state what a method does to each side: `Replied`, `Received`, `Closed`,
  `PeerClosed`. Lemmas prove the correlation-table properties:
  - close fails every outstanding request exactly once;
  - a request followed by its answer restores the table;
  - an answer is used at most once;
  - a second close changes nothing.
- **The worker configuration record** (`WorkerCoreConfiguration`). This is a
  class with the constructor defaults. Each setter stores its argument as
  given, its getter returns that value, and nothing else changes.

Modelling choices:
- **Strings.** In the codec and the channel, a Java `String` is the byte
  sequence `getBytes(UTF_8)` gives (`Messages.JString`, fewer than 2^31
  bytes). The configuration keeps its strings (`workerId`, `location`, the
  task-type keys and `TASKTYPE_ANY`) as Dafny `string` values; no property
  of it depends on their encoding.
- **Values.** A parameter value is `Str`, `Int`, `Long` or `Other`. `Other` is
  any other Java class, which makes encoding throw.
- **Parameters.** A message's parameter map is the sequence of its entries in
  iteration order, and either side of an entry may be null (`Option`).
- **Exceptions.**
  - Encoding can throw halfway, and the bytes written before the throw stay in
    the buffer. So `Encode` returns the bytes together with an optional error.
  - Decoding exceptions are `DecodeError` values:
    - `EndOfBuffer` for `IndexOutOfBoundsException`;
    - `BadVersion`;
    - `NegativeLength` for the `NegativeArraySizeException` from a negative
      string length.
- **Executors.** Channel executors run each submitted job at once, in
  submission order. Their `shutdown()` at the end of `close()` is kept as a
  flag. After it, `sendReplyMessage` and `sendMessageWithAsyncReply` return
  `Rejected`, standing for `RejectedExecutionException`. `sendOneWayMessage`
  checks `active` before it submits anything, so on a closed channel it
  returns normally and does nothing.
- **Message ids.** The random UUIDs are a caller-supplied `freshId` that is not
  pending.
- **Receiver and callbacks.** A receiver is the function `receiverThrows`,
  which says whether it throws on a message. A callback is an identity; its
  invocations are `CallbackEvent`s appended to `fired`.

A byte after the message id that is not one of the five opcodes is consumed
and ignored: the `switch` of `decodeMessage` has no `default`
(`MessageCodec.DecodeField`, `MessageCodec.UnknownOpcodeSkipped`).

The configuration setters validate nothing: any `int`, including zero or a
negative one, is stored as given.

## Model

| member | source | states |
|---|---|---|
| Wire.Int32RoundTrip | dodo-net/src/main/java/dodo/network/netty/DodoMessageUtils.java:97 | readInt gives back the `int` that writeInt wrote (two's complement, big-endian) |
| Wire.Int32BytesRoundTrip | dodo-net/src/main/java/dodo/network/netty/DodoMessageUtils.java:113 | any four bytes read as an `int` and written back are the same four bytes |
| Wire.Int64RoundTrip | dodo-net/src/main/java/dodo/network/netty/DodoMessageUtils.java:119 | readLong gives back the `long` that writeLong wrote |
| Wire.Int64BytesRoundTrip | dodo-net/src/main/java/dodo/network/netty/DodoMessageUtils.java:119 | any eight bytes read as a `long` and written back are the same eight bytes |
| Wire.UnsignedRoundTrip | dodo-net/src/main/java/dodo/network/netty/DodoMessageUtils.java:44 | reading back n big-endian bytes gives the number written, when it fits in n bytes |
| Wire.BytesRoundTrip | dodo-net/src/main/java/dodo/network/netty/DodoMessageUtils.java:49 | writing back the number read from a byte string gives that byte string |
| Wire.BigEndian32 | dodo-net/src/main/java/dodo/network/netty/DodoMessageUtils.java:57 | the four-byte reading is the positional big-endian sum b0·2^24 + b1·2^16 + b2·2^8 + b3 |
| Wire.Int32Sign | dodo-net/src/main/java/dodo/network/netty/DodoMessageUtils.java:57 | a written `int` is negative exactly when the top bit of its first byte is set |
| ByteBufs.ByteBuf.ReadByte | dodo-net/src/main/java/dodo/network/netty/DodoMessageUtils.java:93 | readByte returns the next readable byte and advances by one, or fails on an exhausted buffer without moving |
| ByteBufs.ByteBuf.ReadBytes | dodo-net/src/main/java/dodo/network/netty/DodoMessageUtils.java:51 | readBytes of n returns the next n bytes and advances by n, or fails when fewer are readable |
| ByteBufs.ByteBuf.ReadInt | dodo-net/src/main/java/dodo/network/netty/DodoMessageUtils.java:97 | readInt decodes the next four bytes and advances by four, or fails when fewer are readable |
| ByteBufs.ByteBuf.ReadLong | dodo-net/src/main/java/dodo/network/netty/DodoMessageUtils.java:119 | readLong decodes the next eight bytes and advances by eight, or fails when fewer are readable |
| MessageCodec.EncodeParamsFailure | dodo-net/src/main/java/dodo/network/netty/DodoMessageUtils.java:67-85 | encoding the entries throws exactly when some entry has a non-null key and a value that is not String/Long/Integer, and the error names the first such entry |
| MessageCodec.EncodeFailure | dodo-net/src/main/java/dodo/network/netty/DodoMessageUtils.java:55-90 | encodeMessage throws exactly when the parameters are non-null and hold such an entry |
| MessageCodec.EncodeLayout | dodo-net/src/main/java/dodo/network/netty/DodoMessageUtils.java:55-66 | every encoding starts with 0x61, the 4-byte type, the 4-byte length and bytes of the message id, then opcode 1 and the reply id iff it is non-null, then opcode 2 and the worker process id iff it is non-null |
| MessageCodec.ParseInt | dodo-net/src/main/java/dodo/network/netty/DodoMessageUtils.java:97 | readInt succeeds iff four bytes are left, consumes exactly four, and otherwise fails with end of buffer |
| MessageCodec.ParseLong | dodo-net/src/main/java/dodo/network/netty/DodoMessageUtils.java:119 | readLong succeeds iff eight bytes are left, consumes exactly eight, and otherwise fails with end of buffer |
| MessageCodec.ParseIntSplit | dodo-net/src/main/java/dodo/network/netty/DodoMessageUtils.java:97 | what readInt consumed is the encoding of the value it returned |
| MessageCodec.ParseLongSplit | dodo-net/src/main/java/dodo/network/netty/DodoMessageUtils.java:119 | what readLong consumed is the encoding of the value it returned |
| MessageCodec.ParseString | dodo-net/src/main/java/dodo/network/netty/DodoMessageUtils.java:48-53 | reading a string fails when the length is missing, negative or larger than what is left; otherwise it consumes exactly 4 + len bytes |
| MessageCodec.ParseStringSplit | dodo-net/src/main/java/dodo/network/netty/DodoMessageUtils.java:48-53 | what readUTF8String consumed is the length field and the string it returned |
| MessageCodec.ParseStringWire | dodo-net/src/main/java/dodo/network/netty/DodoMessageUtils.java:42-53 | readUTF8String reads back what writeUTF8String wrote and leaves what follows |
| MessageCodec.ParseIntWire | dodo-net/src/main/java/dodo/network/netty/DodoMessageUtils.java:113 | readInt on written `int` bytes gives the value and leaves what follows |
| MessageCodec.ParseLongWire | dodo-net/src/main/java/dodo/network/netty/DodoMessageUtils.java:119 | readLong on written `long` bytes gives the value and leaves what follows |
| MessageCodec.ParseValue | dodo-net/src/main/java/dodo/network/netty/DodoMessageUtils.java:111-128 | the value after a parameter key is read by readInt, readLong or readUTF8String as the opcode says, always a wire type, never consuming more than is left |
| MessageCodec.ParseValueWire | dodo-net/src/main/java/dodo/network/netty/DodoMessageUtils.java:111-128 | a parameter value read back under its own opcode is the value written, type included |
| MessageCodec.DecodeField | dodo-net/src/main/java/dodo/network/netty/DodoMessageUtils.java:104-129 | one pass of the switch never consumes more than is left |
| MessageCodec.Decode | dodo-net/src/main/java/dodo/network/netty/DodoMessageUtils.java:92-98 | decoding fails on an empty buffer, fails with the bad version byte when the first byte is not 'a', and on success the input starts with the version, type and message id it returns |
| MessageCodec.DecodeTaggedString | dodo-net/src/main/java/dodo/network/netty/DodoMessageUtils.java:105-110 | an encoded id field is decoded into its own slot |
| MessageCodec.DecodeIdField | dodo-net/src/main/java/dodo/network/netty/DodoMessageUtils.java:59-66 | an id field written only when non-null is read back into its slot, and an absent one leaves the slot null |
| MessageCodec.DecodeFieldParam | dodo-net/src/main/java/dodo/network/netty/DodoMessageUtils.java:111-128 | one switch pass over an encoded parameter stores it under its key |
| MessageCodec.DecodeParamBytes | dodo-net/src/main/java/dodo/network/netty/DodoMessageUtils.java:111-128 | decoding one encoded parameter puts it into the map with its type |
| MessageCodec.DecodeEncodedParams | dodo-net/src/main/java/dodo/network/netty/DodoMessageUtils.java:67-88 | decoding the bytes of an encoded entry list merges the map of its non-null entries into the accumulated map |
| MessageCodec.DecodeParamsField | dodo-net/src/main/java/dodo/network/netty/DodoMessageUtils.java:101-130 | decoding the parameter bytes from an empty map yields the map of the non-null entries |
| MessageCodec.DecodeFront | dodo-net/src/main/java/dodo/network/netty/DodoMessageUtils.java:92-101 | the decoder reads the version, the type and the message id, then hands the rest to the field loop |
| MessageCodec.DecodeFieldBytes | dodo-net/src/main/java/dodo/network/netty/DodoMessageUtils.java:102-130 | the field loop over the encoded optional fields gives back the reply id, worker process id and parameter map |
| MessageCodec.RoundTrip | dodo-net/src/main/java/dodo/network/netty/DodoMessageUtils.java:55-138 | decode(encode(m)) has m's type, message id, reply id, worker process id and the map of its non-null parameters, Integer staying Integer and Long staying Long |
| MessageCodec.ParamMapKeys | dodo-net/src/main/java/dodo/network/netty/DodoMessageUtils.java:69 | a key is in the decoded map iff some entry has that key and a non-null value |
| MessageCodec.ParamMapLookup | dodo-net/src/main/java/dodo/network/netty/DodoMessageUtils.java:101-128 | with distinct keys, as in a Java map, every non-null entry is found in the decoded map with its own value |
| MessageCodec.LaterParamWins | dodo-net/src/main/java/dodo/network/netty/DodoMessageUtils.java:111-128 | a later parameter with the same key overwrites the earlier one |
| MessageCodec.LaterIdWins | dodo-net/src/main/java/dodo/network/netty/DodoMessageUtils.java:105-110 | a later reply id or worker process id field overwrites the earlier one |
| MessageCodec.UnknownOpcodeSkipped | dodo-net/src/main/java/dodo/network/netty/DodoMessageUtils.java:102-129 | a byte matching no opcode is consumed and ignored |
| DodoMessageUtils.WriteUTF8String | dodo-net/src/main/java/dodo/network/netty/DodoMessageUtils.java:42-46 | writeUTF8String appends the 4-byte length and then the bytes |
| DodoMessageUtils.ReadUTF8String | dodo-net/src/main/java/dodo/network/netty/DodoMessageUtils.java:48-53 | readUTF8String returns and consumes exactly what ParseString says, with its errors |
| DodoMessageUtils.EncodeParamsStops | dodo-net/src/main/java/dodo/network/netty/DodoMessageUtils.java:83-85 | once an entry has thrown, later entries add nothing |
| DodoMessageUtils.WriteParam | dodo-net/src/main/java/dodo/network/netty/DodoMessageUtils.java:71-82 | each branch appends the opcode, the key and the value bytes of its type |
| DodoMessageUtils.WriteParams | dodo-net/src/main/java/dodo/network/netty/DodoMessageUtils.java:67-88 | the entry loop appends exactly the bytes EncodeParams describes and throws exactly when it does |
| DodoMessageUtils.WriteIdField | dodo-net/src/main/java/dodo/network/netty/DodoMessageUtils.java:59-66 | an id is appended with its opcode only when non-null |
| DodoMessageUtils.EncodeMessage | dodo-net/src/main/java/dodo/network/netty/DodoMessageUtils.java:55-90 | encodeMessage appends exactly Encode(m).bytes and throws exactly when Encode says, keeping the bytes written before the throw |
| DodoMessageUtils.ReadField | dodo-net/src/main/java/dodo/network/netty/DodoMessageUtils.java:104-129 | one switch pass returns and consumes what DecodeField says, with its errors |
| DodoMessageUtils.DecodeMessage | dodo-net/src/main/java/dodo/network/netty/DodoMessageUtils.java:92-138 | decodeMessage returns Decode of the readable bytes and on success leaves nothing readable |
| DodoMessageUtils.EncodeThenDecode | dodo-net/src/main/java/dodo/network/netty/DodoMessageUtils.java:55-138 | encodeMessage into a new buffer followed by decodeMessage on it gives back the message's type, ids and non-null parameters, whenever encoding did not throw |
| JvmChannels.ClosedEvents | dodo-core/src/main/java/dodo/network/jvm/JVMChannel.java:132-139 | close() makes one "closed" failure per visited request, carrying its callback and original, in visiting order |
| JvmChannels.EnumeratesCount | dodo-core/src/main/java/dodo/network/jvm/JVMChannel.java:132 | the forEach visits as many entries as the map has keys |
| JvmChannels.ClosedEventsCount | dodo-core/src/main/java/dodo/network/jvm/JVMChannel.java:132-139 | visiting every pending request once makes one invocation per pending request |
| JvmChannels.ClosedEventsCover | dodo-core/src/main/java/dodo/network/jvm/JVMChannel.java:132-139 | every pending request's callback is failed with its original |
| JvmChannels.ClosedEventsOnlyPending | dodo-core/src/main/java/dodo/network/jvm/JVMChannel.java:132-139 | only pending requests are failed, each with its own callback and original |
| JvmChannels.ClosedEventsDistinct | dodo-core/src/main/java/dodo/network/jvm/JVMChannel.java:132-139 | no request is failed twice |
| JvmChannels.CloseFailsEachOnce | dodo-core/src/main/java/dodo/network/jvm/JVMChannel.java:130-140 | close() appends to the callback log exactly one "closed" failure per outstanding request, each with that request's callback and original, none repeated, nothing else |
| JvmChannels.CloseTwiceChangesNothing | dodo-core/src/main/java/dodo/network/jvm/JVMChannel.java:130-146 | closing an already closed side fires nothing and changes nothing |
| JvmChannels.RequestThenAnswer | dodo-core/src/main/java/dodo/network/jvm/JVMChannel.java:122-124 | a request recorded under a fresh id and answered with that id leaves the pending table as before and fires its callback once with (original, answer) |
| JvmChannels.AnsweredOnce | dodo-core/src/main/java/dodo/network/jvm/JVMChannel.java:85-95 | a second answer with the same reply id changes nothing and fires nothing |
| JvmChannels.JVMChannel.constructor | dodo-core/src/main/java/dodo/network/jvm/JVMChannel.java:39-47 | a new channel is inactive, unwired, with empty pending maps and nothing fired |
| JvmChannels.JVMChannel.SetOtherSide | dodo-core/src/main/java/dodo/network/jvm/JVMChannel.java:63-66 | setOtherSide wires the peer and makes the channel active, changing nothing else |
| JvmChannels.JVMChannel.HandleReply | dodo-core/src/main/java/dodo/network/jvm/JVMChannel.java:83-96 | a known reply id is removed from both maps and its callback fires once with (original, answer); an unknown one changes nothing |
| JvmChannels.JVMChannel.ReceiveMessageFromPeer | dodo-core/src/main/java/dodo/network/jvm/JVMChannel.java:49-61 | a message with a reply id goes to reply handling, any other to the receiver; a throwing receiver closes this side, and the peer too if it is still active |
| JvmChannels.JVMChannel.FailPending | dodo-core/src/main/java/dodo/network/jvm/JVMChannel.java:132-140 | the forEach fails every pending request once in some iteration order and leaves both maps empty |
| JvmChannels.JVMChannel.Close | dodo-core/src/main/java/dodo/network/jvm/JVMChannel.java:129-147 | close deactivates, fails each pending request once, empties both maps, closes the peer only if it is still active, and shuts the executors down |
| JvmChannels.JVMChannel.SendOneWayMessage | dodo-core/src/main/java/dodo/network/jvm/JVMChannel.java:68-81 | on an inactive channel (not wired yet, or closed) nothing happens; otherwise the peer receives the message and then the send callback fires once, unless that delivery closed this side |
| JvmChannels.JVMChannel.SendReplyMessage | dodo-core/src/main/java/dodo/network/jvm/JVMChannel.java:98-110 | the answer gets a fresh id and the request's id as reply id and goes to the peer's reply handling; a channel not wired yet (inactive) drops it; after close() it is rejected |
| JvmChannels.JVMChannel.SendMessageWithAsyncReply | dodo-core/src/main/java/dodo/network/jvm/JVMChannel.java:112-127 | inactive (never wired): the callback fails once with "not active" and nothing is recorded; after close(): rejected; active: the request gets the fresh id, is recorded in both maps, then delivered to the peer |
| JvmChannels.SendsBeforeWiring | dodo-core/src/main/java/dodo/network/jvm/JVMChannel.java:68-127 | on a new channel before setOtherSide, all three sends return normally, a one-way message and a reply are dropped, and a request fires its callback once with "not active" and leaves nothing pending |
| WorkerConfiguration.Defaults | majordodo-core/src/main/java/majordodo/worker/WorkerCoreConfiguration.java:41-50 | defaults: 20 threads, no worker id, location "unknown", exactly one task-type limit {TASKTYPE_ANY ↦ 1}, groups [0], timeout 60000 |
| WorkerConfiguration.WorkerCoreConfiguration.constructor | majordodo-core/src/main/java/majordodo/worker/WorkerCoreConfiguration.java:43-50 | a new configuration holds exactly the defaults |
| WorkerConfiguration.WorkerCoreConfiguration.SetMaxThreads | majordodo-core/src/main/java/majordodo/worker/WorkerCoreConfiguration.java:61-67 | getMaxThreads then returns the value set, whatever it is, and no other setting changes |
| WorkerConfiguration.WorkerCoreConfiguration.SetWorkerId | majordodo-core/src/main/java/majordodo/worker/WorkerCoreConfiguration.java:74-80 | getWorkerId then returns the value set, null included, and no other setting changes |
| WorkerConfiguration.WorkerCoreConfiguration.SetLocation | majordodo-core/src/main/java/majordodo/worker/WorkerCoreConfiguration.java:88-94 | getLocation then returns the value set and no other setting changes |
| WorkerConfiguration.WorkerCoreConfiguration.SetMaxThreadsByTaskType | majordodo-core/src/main/java/majordodo/worker/WorkerCoreConfiguration.java:101-107 | getMaxThreadsByTaskType then returns the map set and no other setting changes |
| WorkerConfiguration.WorkerCoreConfiguration.SetGroups | majordodo-core/src/main/java/majordodo/worker/WorkerCoreConfiguration.java:114-120 | getGroups then returns the list set and no other setting changes |
| WorkerConfiguration.WorkerCoreConfiguration.SetTasksRequestTimeout | majordodo-core/src/main/java/majordodo/worker/WorkerCoreConfiguration.java:127-133 | getTasksRequestTimeout then returns the value set, whatever it is, and no other setting changes |

## Left out

- UTF-8 conversion of Java strings (`getBytes(UTF_8)` and `new String(bytes, UTF_8)`): strings are their byte sequences, so malformed UTF-8 being replaced on decoding is not modelled.
- Netty's `ByteBuf` internals (capacity growth, reference counting, the writer index moving under a reader): the buffer is its written bytes and a reader index.
- A null message id (a `NullPointerException` in `writeUTF8String`) and a null message: `messageId` is always present in the model.
- A decoded string length so large that `new byte[len]` runs out of memory: the model reports end of buffer instead.
- The `Message` class itself, which is not part of this model: the decoder's rebuilt message is a value, and the constructor's own defaults are not modelled.
- Thread pools and concurrency in `JVMChannel`: submitted jobs run at once in submission order, so interleavings between `callbackexecutor` and `executionserializer`, and the order of callbacks relative to later sends, are not modelled.
- JvmChannels.JVMChannel.SendMessageWithAsyncReply: the `freshId !in pending` precondition stands for the uniqueness of `UUID.randomUUID()`.
- `UUID.randomUUID()`: randomness is a caller-supplied fresh id.
- Logging (`printStackTrace`, `System.out.println`).
- Reference aliasing: `sendReplyMessage` and `sendMessageWithAsyncReply` set the id fields of the caller's `Message` in place; the model sends an updated copy, so the caller does not see its object change.
- Reference aliasing of the map and list passed to the configuration setters and returned by the getters: they are values, so a caller mutating them later is not modelled.
- Receivers and callbacks that call back into the channel (for example a receiver that sends): the receiver is only "throws or not", and a callback is an identity in the log.
- A callback that throws, and the executors rejecting a callback job submitted from within a running job, except for the send callback after a delivery that closed the channel.
- Wiring other than a proper pair: `setOtherSide(null)`, a channel wired to itself, or one-sided wiring. The sends accept a channel that is either not wired yet or paired (`Wired()`). `close()` and `receiveMessageFromPeer` require `Paired()`, because `close()` dereferences `otherSide` and would throw a `NullPointerException` on a never-wired channel.
- `WorkerCoreConfiguration.read`: it applies a property map through reflection over code that is not part of this model.
- Null elements inside the `maxThreadsByTaskType` map and the `groups` list (Java `Integer` may be null).
- `Task.TASKTYPE_ANY`: its value is defined in `Task`, which is not part of this model; it is an unspecified constant string.

/**
 * The message record carried by channels and the codec. Message's own source
 * file is not part of this model; only the fields the codec and the in-JVM
 * channel read and write appear here.
 */
module Messages {
  import opened Wrappers
  import opened Wire

  /** A Java String, as the UTF-8 bytes `getBytes(UTF_8)` gives (a Java array: fewer than 2^31 of them). */
  type JString = s: seq<Byte> | |s| < 0x8000_0000

  /** A parameter value: the three types the wire carries, and any other Java object. */
  datatype Value = Str(s: JString) | Int(i: Int32) | Long(l: Int64) | Other

  /** One entry of the parameter map; either side may be null. */
  datatype Param = Param(key: Option<JString>, value: Option<Value>)

  /**
   * A message as a sender builds it. `parameters` is the parameter map's entry
   * set in its iteration order (or null); `msgType` is the `type` field.
   */
  datatype Message = Message(
    msgType: Int32,
    messageId: JString,
    replyMessageId: Option<JString>,
    workerProcessId: Option<JString>,
    parameters: Option<seq<Param>>)

  /** A message as the decoder rebuilds it, with its parameters in a HashMap. */
  datatype DecodedMessage = DecodedMessage(
    msgType: Int32,
    messageId: JString,
    replyMessageId: Option<JString>,
    workerProcessId: Option<JString>,
    parameters: map<JString, Value>)
}

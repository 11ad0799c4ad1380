/**
 * The wire format of dodo messages, as pure functions: what encodeMessage
 * appends to a buffer and what decodeMessage reads back. The imperative
 * encoder and decoder (module DodoMessageUtils) are proved against these.
 */
module MessageCodec {
  import opened Wrappers
  import opened Wire
  import opened Messages

  const VERSION: Byte := 0x61  // 'a'
  const OPCODE_REPLYMESSAGEID: Byte := 1
  const OPCODE_WORKERPROCESSID: Byte := 2
  const OPCODE_STRING_PARAMETER: Byte := 3
  const OPCODE_INT_PARAMETER: Byte := 4
  const OPCODE_LONG_PARAMETER: Byte := 5

  /** The RuntimeException encodeMessage throws for a value of an unsupported class. */
  datatype EncodeError = BadParameterType(key: JString)

  /** The exceptions decodeMessage can end with. */
  datatype DecodeError =
    | EndOfBuffer                // IndexOutOfBoundsException: fewer bytes than a read needs
    | BadVersion(version: Byte)  // "bad protocol version"; the byte read unsigned (0..255), where Java prints it signed
    | NegativeLength(len: Int32) // NegativeArraySizeException from a string length

  /**
   * What encoding leaves behind: the bytes appended to the buffer and, when it
   * threw, why. On a throw the bytes written before it stay in the buffer.
   */
  datatype Encoded = Encoded(bytes: seq<Byte>, failure: Option<EncodeError>)

  // ---------------------------------------------------------------- encoding

  /** writeUTF8String: a four-byte length, then the bytes. */
  function WireString(s: JString): seq<Byte>
  {
    Int32ToBytes(|s|) + s
  }

  /** A parameter entry that makes encoding throw. */
  predicate IsBad(p: Param)
  {
    p.key.Some? && p.value == Some(Other)
  }

  /** The opcode that tags a parameter of a wire type. */
  function ParamOpcode(v: Value): Byte
    requires !v.Other?
  {
    match v
    case Str(_) => OPCODE_STRING_PARAMETER
    case Long(_) => OPCODE_LONG_PARAMETER
    case Int(_) => OPCODE_INT_PARAMETER
  }

  /** A parameter value on the wire: a string, eight bytes or four bytes. */
  function ValueBytes(v: Value): seq<Byte>
    requires !v.Other?
  {
    match v
    case Str(s) => WireString(s)
    case Long(l) => Int64ToBytes(l)
    case Int(i) => Int32ToBytes(i)
  }

  /** What follows the opcode: the key, then the value. */
  function ParamPayload(key: JString, v: Value): seq<Byte>
    requires !v.Other?
  {
    WireString(key) + ValueBytes(v)
  }

  /** The tagged bytes of one parameter whose value has a wire type. */
  function ParamBytes(key: JString, v: Value): seq<Byte>
    requires !v.Other?
  {
    [ParamOpcode(v)] + ParamPayload(key, v)
  }

  /**
   * The loop over the parameter entries: entries with a null key or value are
   * skipped, and the first entry of an unsupported class stops it with an error.
   */
  function EncodeParams(ps: seq<Param>): Encoded
  {
    if ps == [] then Encoded([], None)
    else
      var done := EncodeParams(ps[..|ps| - 1]);
      var p := ps[|ps| - 1];
      if done.failure.Some? || p.key.None? || p.value.None? then done
      else if p.value.value.Other? then Encoded(done.bytes, Some(BadParameterType(p.key.value)))
      else Encoded(done.bytes + ParamBytes(p.key.value, p.value.value), None)
  }

  /** The bytes an id field takes: nothing when it is null, else its opcode and the id as a string. */
  function IdField(opcode: Byte, id: Option<JString>): seq<Byte>
  {
    if id.Some? then [opcode] + WireString(id.value) else []
  }

  /** Version, type, message id, then the reply id and the worker process id when present. */
  function Header(m: Message): seq<Byte>
  {
    [VERSION] + Int32ToBytes(m.msgType) + WireString(m.messageId)
    + IdField(OPCODE_REPLYMESSAGEID, m.replyMessageId)
    + IdField(OPCODE_WORKERPROCESSID, m.workerProcessId)
  }

  /** encodeMessage. */
  function Encode(m: Message): Encoded
  {
    var header := Header(m);
    match m.parameters
    case None => Encoded(header, None)
    case Some(ps) =>
      var body := EncodeParams(ps);
      Encoded(header + body.bytes, body.failure)
  }

  /** No entry of `ps` makes encoding throw. */
  predicate NoneBad(ps: seq<Param>)
  {
    forall i :: 0 <= i < |ps| ==> !IsBad(ps[i])
  }

  lemma NoneBadSnoc(init: seq<Param>, p: Param)
    ensures NoneBad(init + [p]) <==> NoneBad(init) && !IsBad(p)
  {
    var ps := init + [p];
    if NoneBad(init) && !IsBad(p) {
      forall i | 0 <= i < |ps| ensures !IsBad(ps[i]) {
        if i < |init| { assert ps[i] == init[i]; }
      }
    }
    if NoneBad(ps) {
      assert ps[|init|] == p;
      forall i | 0 <= i < |init| ensures !IsBad(init[i]) {
        assert ps[i] == init[i];
      }
    }
  }

  /** `ps[i]` is the first entry that makes encoding throw. */
  predicate FirstBad(ps: seq<Param>, i: nat)
  {
    i < |ps| && IsBad(ps[i]) && NoneBad(ps[..i])
  }

  /**
   * Encoding the entries throws exactly when some entry has a non-null key and
   * a value of an unsupported class, and it reports the first such entry.
   */
  lemma {:induction false} EncodeParamsFailure(ps: seq<Param>)
    ensures EncodeParams(ps).failure.None? <==> NoneBad(ps)
    ensures EncodeParams(ps).failure.Some? ==>
      exists i: nat :: FirstBad(ps, i) && EncodeParams(ps).failure == Some(BadParameterType(ps[i].key.value))
  {
    if ps != [] {
      var init, p := ps[..|ps| - 1], ps[|ps| - 1];
      assert ps == init + [p];
      NoneBadSnoc(init, p);
      var done := EncodeParams(init);
      EncodeParamsFailure(init);
      if done.failure.Some? {
        var i: nat :| FirstBad(init, i) && done.failure == Some(BadParameterType(init[i].key.value));
        assert ps[..i] == init[..i] && ps[i] == init[i];
        assert FirstBad(ps, i);
        assert !NoneBad(ps) by { assert IsBad(ps[i]); }
      } else if IsBad(p) {
        assert FirstBad(ps, |ps| - 1);
      }
    }
  }

  /** encodeMessage throws exactly when the parameter map holds a value of an unsupported class under a non-null key. */
  lemma EncodeFailure(m: Message)
    ensures Encode(m).failure.None? <==> m.parameters.None? || NoneBad(m.parameters.value)
  {
    if m.parameters.Some? {
      EncodeParamsFailure(m.parameters.value);
    }
  }

  /**
   * Every encoding, whether or not it throws later, starts with the version
   * byte, the type, the length-prefixed message id, then the reply id and the
   * worker process id exactly when they are non-null, in that order.
   */
  lemma EncodeLayout(m: Message)
    ensures [VERSION] + Int32ToBytes(m.msgType) + Int32ToBytes(|m.messageId|) + m.messageId
            + IdField(OPCODE_REPLYMESSAGEID, m.replyMessageId)
            + IdField(OPCODE_WORKERPROCESSID, m.workerProcessId) <= Encode(m).bytes
  {
    var h := Header(m);
    assert h == [VERSION] + Int32ToBytes(m.msgType) + Int32ToBytes(|m.messageId|) + m.messageId
            + IdField(OPCODE_REPLYMESSAGEID, m.replyMessageId)
            + IdField(OPCODE_WORKERPROCESSID, m.workerProcessId);
    assert Encode(m).bytes[..|h|] == h;
  }

  // ---------------------------------------------------------------- decoding

  /** readInt on the unread bytes `s`: the value and what is left. */
  function ParseInt(s: seq<Byte>): (r: Result<(Int32, seq<Byte>), DecodeError>)
    ensures r.Ok? <==> |s| >= 4
    ensures r.Ok? ==> r.value.1 == s[4..]
    ensures r.Err? ==> r.error == EndOfBuffer
  {
    if |s| < 4 then Err(EndOfBuffer)
    else Ok((BytesToInt32(s[..4]), s[4..]))
  }

  /** What readInt consumed is the encoding of the value it returned. */
  lemma ParseIntSplit(s: seq<Byte>)
    requires ParseInt(s).Ok?
    ensures s == Int32ToBytes(ParseInt(s).value.0) + ParseInt(s).value.1
  {
    Int32BytesRoundTrip(s[..4]);
    assert s == s[..4] + s[4..];
  }

  /** readLong on the unread bytes `s`. */
  function ParseLong(s: seq<Byte>): (r: Result<(Int64, seq<Byte>), DecodeError>)
    ensures r.Ok? <==> |s| >= 8
    ensures r.Ok? ==> r.value.1 == s[8..]
    ensures r.Err? ==> r.error == EndOfBuffer
  {
    if |s| < 8 then Err(EndOfBuffer)
    else Ok((BytesToInt64(s[..8]), s[8..]))
  }

  /** What readLong consumed is the encoding of the value it returned. */
  lemma ParseLongSplit(s: seq<Byte>)
    requires ParseLong(s).Ok?
    ensures s == Int64ToBytes(ParseLong(s).value.0) + ParseLong(s).value.1
  {
    Int64BytesRoundTrip(s[..8]);
    assert s == s[..8] + s[8..];
  }

  /**
   * readUTF8String on the unread bytes `s`: it fails when the length cannot be
   * read, is negative, or exceeds what is left; otherwise it consumes exactly
   * the length field and that many bytes.
   */
  function ParseString(s: seq<Byte>): (r: Result<(JString, seq<Byte>), DecodeError>)
    ensures |s| < 4 ==> r == Err(EndOfBuffer)
    ensures |s| >= 4 && BytesToInt32(s[..4]) < 0 ==> r == Err(NegativeLength(BytesToInt32(s[..4])))
    ensures |s| >= 4 && BytesToInt32(s[..4]) > |s| - 4 ==> r == Err(EndOfBuffer)
    ensures r.Ok? ==> |s| >= 4 + |r.value.0| && r.value.1 == s[4 + |r.value.0|..]
  {
    match ParseInt(s)
    case Err(e) => Err(e)
    case Ok((len, rest)) =>
      if len < 0 then Err(NegativeLength(len))
      else if len > |rest| then Err(EndOfBuffer)
      else Ok((rest[..len], rest[len..]))
  }

  /** What readUTF8String consumed is the length field and the string it returned. */
  lemma ParseStringSplit(s: seq<Byte>)
    requires ParseString(s).Ok?
    ensures s == WireString(ParseString(s).value.0) + ParseString(s).value.1
  {
    ParseIntSplit(s);
    var len := ParseInt(s).value.0;
    var rest := s[4..];
    assert rest == rest[..len] + rest[len..];
  }

  /** The value of a parameter after its key: readInt, readLong or readUTF8String, as the opcode says. */
  function ParseValue(opcode: Byte, s: seq<Byte>): (r: Result<(Value, seq<Byte>), DecodeError>)
    requires opcode == OPCODE_INT_PARAMETER || opcode == OPCODE_LONG_PARAMETER || opcode == OPCODE_STRING_PARAMETER
    ensures r.Ok? ==> |r.value.1| <= |s| && !r.value.0.Other?
  {
    if opcode == OPCODE_INT_PARAMETER then
      match ParseInt(s)
      case Err(e) => Err(e)
      case Ok((i, rest)) => Ok((Int(i), rest))
    else if opcode == OPCODE_LONG_PARAMETER then
      match ParseLong(s)
      case Err(e) => Err(e)
      case Ok((l, rest)) => Ok((Long(l), rest))
    else
      match ParseString(s)
      case Err(e) => Err(e)
      case Ok((str, rest)) => Ok((Str(str), rest))
  }

  /** The optional fields decodeMessage accumulates in its loop. */
  datatype Fields = Fields(replyMessageId: Option<JString>, workerProcessId: Option<JString>, parameters: map<JString, Value>)

  const NoFields := Fields(None, None, map[])

  /**
   * One pass of the `while (isReadable())` loop after the opcode byte: read the
   * payload the opcode calls for and record it, overwriting an earlier value.
   * An opcode with no case in the switch reads nothing and changes nothing.
   */
  function DecodeField(opcode: Byte, s: seq<Byte>, acc: Fields): (r: Result<(Fields, seq<Byte>), DecodeError>)
    ensures r.Ok? ==> |r.value.1| <= |s|
  {
    if opcode == OPCODE_REPLYMESSAGEID || opcode == OPCODE_WORKERPROCESSID then
      match ParseString(s)
      case Err(e) => Err(e)
      case Ok((id, more)) =>
        if opcode == OPCODE_REPLYMESSAGEID then Ok((acc.(replyMessageId := Some(id)), more))
        else Ok((acc.(workerProcessId := Some(id)), more))
    else if opcode == OPCODE_INT_PARAMETER || opcode == OPCODE_LONG_PARAMETER || opcode == OPCODE_STRING_PARAMETER then
      match ParseString(s)
      case Err(e) => Err(e)
      case Ok((key, more)) =>
        match ParseValue(opcode, more)
        case Err(e) => Err(e)
        case Ok((v, after)) => Ok((acc.(parameters := acc.parameters[key := v]), after))
    else Ok((acc, s))
  }

  /** The `while (isReadable())` loop: one opcode and its payload at a time, until no byte is left. */
  function DecodeFields(s: seq<Byte>, acc: Fields): Result<Fields, DecodeError>
    decreases |s|
  {
    if s == [] then Ok(acc)
    else
      match DecodeField(s[0], s[1..], acc)
      case Err(e) => Err(e)
      case Ok((next, rest)) => DecodeFields(rest, next)
  }

  /** The message built after the loop. */
  function Finish(msgType: Int32, messageId: JString, fields: Result<Fields, DecodeError>): Result<DecodedMessage, DecodeError>
  {
    match fields
    case Err(e) => Err(e)
    case Ok(f) => Ok(DecodedMessage(msgType, messageId, f.replyMessageId, f.workerProcessId, f.parameters))
  }

  /** decodeMessage: version byte, type, message id, then the optional fields to the end. */
  function Decode(s: seq<Byte>): (r: Result<DecodedMessage, DecodeError>)
    ensures s == [] ==> r == Err(EndOfBuffer)
    ensures s != [] && s[0] != VERSION ==> r == Err(BadVersion(s[0]))
    ensures r.Ok? ==> |s| >= 9 + |r.value.messageId| && s[..9 + |r.value.messageId|] == [VERSION] + Int32ToBytes(r.value.msgType) + WireString(r.value.messageId)
  {
    if s == [] then Err(EndOfBuffer)
    else if s[0] != VERSION then Err(BadVersion(s[0]))
    else
      match ParseInt(s[1..])
      case Err(e) => Err(e)
      case Ok((msgType, s1)) =>
        match ParseString(s1)
        case Err(e) => Err(e)
        case Ok((id, s2)) =>
          ParseIntSplit(s[1..]);
          ParseStringSplit(s1);
          assert s == [VERSION] + Int32ToBytes(msgType) + WireString(id) + s2;
          Finish(msgType, id, DecodeFields(s2, NoFields))
  }

  // ---------------------------------------------------------------- round trip

  /** The parameter map a decoder rebuilds from entries: null keys and values dropped, later entries win. */
  function ParamMap(ps: seq<Param>): map<JString, Value>
  {
    if ps == [] then map[]
    else
      var earlier := ParamMap(ps[..|ps| - 1]);
      var p := ps[|ps| - 1];
      if p.key.Some? && p.value.Some? then earlier[p.key.value := p.value.value] else earlier
  }

  /** The message decoding gives back for `m`. */
  function Decoded(m: Message): DecodedMessage
  {
    DecodedMessage(m.msgType, m.messageId, m.replyMessageId, m.workerProcessId,
      if m.parameters.Some? then ParamMap(m.parameters.value) else map[])
  }

  lemma ParseStringWire(s: JString, t: seq<Byte>)
    ensures ParseString(WireString(s) + t) == Ok((s, t))
  {
    var input := WireString(s) + t;
    Int32RoundTrip(|s|);
    assert input[..4] == Int32ToBytes(|s|);
    assert input[4..] == s + t;
    assert (s + t)[..|s|] == s && (s + t)[|s|..] == t;
  }

  lemma ParseIntWire(x: Int32, t: seq<Byte>)
    ensures ParseInt(Int32ToBytes(x) + t) == Ok((x, t))
  {
    Int32RoundTrip(x);
    assert (Int32ToBytes(x) + t)[..4] == Int32ToBytes(x);
  }

  lemma ParseLongWire(x: Int64, t: seq<Byte>)
    ensures ParseLong(Int64ToBytes(x) + t) == Ok((x, t))
  {
    Int64RoundTrip(x);
    assert (Int64ToBytes(x) + t)[..8] == Int64ToBytes(x);
  }

  /** The loop moves past one field whose step consumed its payload and left `t`. */
  lemma DecodeFieldsStep(opcode: Byte, payload: seq<Byte>, t: seq<Byte>, acc: Fields, next: Fields)
    requires DecodeField(opcode, payload + t, acc) == Ok((next, t))
    ensures DecodeFields([opcode] + payload + t, acc) == DecodeFields(t, next)
  {
    var rest := payload + t;
    assert [opcode] + payload + t == [opcode] + rest;
    assert ([opcode] + rest)[1..] == rest;
  }

  lemma DecodeTaggedString(opcode: Byte, s: JString, t: seq<Byte>, acc: Fields)
    requires opcode == OPCODE_REPLYMESSAGEID || opcode == OPCODE_WORKERPROCESSID
    ensures DecodeFields([opcode] + WireString(s) + t, acc) ==
      DecodeFields(t, if opcode == OPCODE_REPLYMESSAGEID then acc.(replyMessageId := Some(s)) else acc.(workerProcessId := Some(s)))
  {
    ParseStringWire(s, t);
    DecodeFieldsStep(opcode, WireString(s), t, acc,
      if opcode == OPCODE_REPLYMESSAGEID then acc.(replyMessageId := Some(s)) else acc.(workerProcessId := Some(s)));
  }

  /** A value read back after its opcode is the value written. */
  lemma ParseValueWire(v: Value, t: seq<Byte>)
    requires !v.Other?
    ensures ParseValue(ParamOpcode(v), ValueBytes(v) + t) == Ok((v, t))
  {
    match v
    case Str(s) => ParseStringWire(s, t);
    case Long(l) => ParseLongWire(l, t);
    case Int(i) => ParseIntWire(i, t);
  }

  /** The parameter branches of the switch, once the key and the value have been read. */
  lemma DecodeFieldParamStep(opcode: Byte, s: seq<Byte>, key: JString, more: seq<Byte>, v: Value, after: seq<Byte>, acc: Fields)
    requires opcode == OPCODE_INT_PARAMETER || opcode == OPCODE_LONG_PARAMETER || opcode == OPCODE_STRING_PARAMETER
    requires ParseString(s) == Ok((key, more)) && ParseValue(opcode, more) == Ok((v, after))
    ensures DecodeField(opcode, s, acc) == Ok((acc.(parameters := acc.parameters[key := v]), after))
  {
  }

  /** The reply id and worker process id branches of the switch, once the id has been read. */
  lemma DecodeFieldIdStep(opcode: Byte, s: seq<Byte>, id: JString, more: seq<Byte>, acc: Fields)
    requires opcode == OPCODE_REPLYMESSAGEID || opcode == OPCODE_WORKERPROCESSID
    requires ParseString(s) == Ok((id, more))
    ensures DecodeField(opcode, s, acc) ==
      Ok((if opcode == OPCODE_REPLYMESSAGEID then acc.(replyMessageId := Some(id)) else acc.(workerProcessId := Some(id)), more))
  {
  }

  lemma DecodeFieldParam(key: JString, v: Value, t: seq<Byte>, acc: Fields)
    requires !v.Other?
    ensures DecodeField(ParamOpcode(v), ParamPayload(key, v) + t, acc) == Ok((acc.(parameters := acc.parameters[key := v]), t))
  {
    var rest := ValueBytes(v) + t;
    assert ParamPayload(key, v) + t == WireString(key) + rest;
    ParseStringWire(key, rest);
    ParseValueWire(v, t);
    DecodeFieldParamStep(ParamOpcode(v), ParamPayload(key, v) + t, key, rest, v, t, acc);
  }

  /** Decoding one encoded parameter puts it into the map, keeping its type. */
  lemma DecodeParamBytes(key: JString, v: Value, t: seq<Byte>, acc: Fields)
    requires !v.Other?
    ensures DecodeFields(ParamBytes(key, v) + t, acc) == DecodeFields(t, acc.(parameters := acc.parameters[key := v]))
  {
    DecodeFieldParam(key, v, t, acc);
    DecodeFieldsStep(ParamOpcode(v), ParamPayload(key, v), t, acc, acc.(parameters := acc.parameters[key := v]));
  }

  /** How the encoding of a parameter list grows by its last entry, when nothing threw. */
  lemma EncodeParamsLast(ps: seq<Param>)
    requires ps != [] && EncodeParams(ps).failure.None?
    ensures var init, p := ps[..|ps| - 1], ps[|ps| - 1];
      EncodeParams(init).failure.None? &&
      if p.key.Some? && p.value.Some? then
        !p.value.value.Other? &&
        EncodeParams(ps).bytes == EncodeParams(init).bytes + ParamBytes(p.key.value, p.value.value) &&
        ParamMap(ps) == ParamMap(init)[p.key.value := p.value.value]
      else
        EncodeParams(ps).bytes == EncodeParams(init).bytes && ParamMap(ps) == ParamMap(init)
  {
  }

  lemma MapMergeUpdate<K, V>(a: map<K, V>, b: map<K, V>, k: K, v: V)
    ensures (a + b)[k := v] == a + b[k := v]
  {
  }

  /** Decoding the parameter bytes of an encoding that did not throw merges their map into the accumulator. */
  lemma {:induction false} DecodeEncodedParams(ps: seq<Param>, t: seq<Byte>, acc: Fields)
    requires EncodeParams(ps).failure.None?
    ensures DecodeFields(EncodeParams(ps).bytes + t, acc) == DecodeFields(t, acc.(parameters := acc.parameters + ParamMap(ps)))
  {
    if ps == [] {
      assert [] + t == t;
      assert acc.parameters + map[] == acc.parameters;
    } else {
      var init, p := ps[..|ps| - 1], ps[|ps| - 1];
      EncodeParamsLast(ps);
      var before := EncodeParams(init).bytes;
      if p.key.Some? && p.value.Some? {
        var k, v := p.key.value, p.value.value;
        assert EncodeParams(ps).bytes + t == before + (ParamBytes(k, v) + t);
        DecodeEncodedParams(init, ParamBytes(k, v) + t, acc);
        var mid := acc.(parameters := acc.parameters + ParamMap(init));
        DecodeParamBytes(k, v, t, mid);
        MapMergeUpdate(acc.parameters, ParamMap(init), k, v);
      } else {
        DecodeEncodedParams(init, t, acc);
      }
    }
  }

  /** The decoder reads the fixed front of a message and hands the rest to the field loop. */
  lemma DecodeFront(msgType: Int32, id: JString, fields: seq<Byte>)
    ensures Decode([VERSION] + Int32ToBytes(msgType) + WireString(id) + fields) == Finish(msgType, id, DecodeFields(fields, NoFields))
  {
    var bs := [VERSION] + Int32ToBytes(msgType) + WireString(id) + fields;
    assert bs[1..] == Int32ToBytes(msgType) + (WireString(id) + fields);
    ParseIntWire(msgType, WireString(id) + fields);
    ParseStringWire(id, fields);
  }

  /** The bytes after the message id: reply id, worker process id, then the parameters. */
  function FieldBytes(m: Message): seq<Byte>
  {
    IdField(OPCODE_REPLYMESSAGEID, m.replyMessageId)
    + IdField(OPCODE_WORKERPROCESSID, m.workerProcessId)
    + (if m.parameters.Some? then EncodeParams(m.parameters.value).bytes else [])
  }

  lemma EncodeSplits(m: Message)
    requires Encode(m).failure.None?
    ensures Encode(m).bytes == [VERSION] + Int32ToBytes(m.msgType) + WireString(m.messageId) + FieldBytes(m)
  {
  }

  /** An id field, when present, is read back into its place in the accumulator. */
  lemma DecodeIdField(opcode: Byte, id: Option<JString>, t: seq<Byte>, acc: Fields)
    requires opcode == OPCODE_REPLYMESSAGEID || opcode == OPCODE_WORKERPROCESSID
    ensures DecodeFields(IdField(opcode, id) + t, acc) ==
      DecodeFields(t, if id.None? then acc
                      else if opcode == OPCODE_REPLYMESSAGEID then acc.(replyMessageId := id)
                      else acc.(workerProcessId := id))
  {
    if id.Some? {
      DecodeTaggedString(opcode, id.value, t, acc);
    } else {
      assert IdField(opcode, id) + t == t;
    }
  }

  lemma DecodeFieldBytes(m: Message)
    requires Encode(m).failure.None?
    ensures DecodeFields(FieldBytes(m), NoFields) ==
      Ok(Fields(m.replyMessageId, m.workerProcessId, if m.parameters.Some? then ParamMap(m.parameters.value) else map[]))
  {
    var reply := IdField(OPCODE_REPLYMESSAGEID, m.replyMessageId);
    var wpid := IdField(OPCODE_WORKERPROCESSID, m.workerProcessId);
    var params := if m.parameters.Some? then EncodeParams(m.parameters.value).bytes else [];
    assert FieldBytes(m) == reply + (wpid + params);
    var acc1 := NoFields.(replyMessageId := m.replyMessageId);
    DecodeIdField(OPCODE_REPLYMESSAGEID, m.replyMessageId, wpid + params, NoFields);
    var acc2 := acc1.(workerProcessId := m.workerProcessId);
    DecodeIdField(OPCODE_WORKERPROCESSID, m.workerProcessId, params, acc1);
    DecodeParamsField(m.parameters, acc2);
  }

  lemma DecodeParamsField(ps: Option<seq<Param>>, acc: Fields)
    requires acc.parameters == map[]
    requires ps.Some? ==> EncodeParams(ps.value).failure.None?
    ensures DecodeFields(if ps.Some? then EncodeParams(ps.value).bytes else [], acc) ==
      Ok(acc.(parameters := if ps.Some? then ParamMap(ps.value) else map[]))
  {
    if ps.Some? {
      var bytes := EncodeParams(ps.value).bytes;
      assert bytes + [] == bytes;
      DecodeEncodedParams(ps.value, [], acc);
      assert acc.parameters + ParamMap(ps.value) == ParamMap(ps.value);
    }
  }

  /** decode(encode(m)) gives back every field of m, with the parameters as a map of their non-null entries. */
  lemma RoundTrip(m: Message)
    requires Encode(m).failure.None?
    ensures Decode(Encode(m).bytes) == Ok(Decoded(m))
  {
    EncodeSplits(m);
    DecodeFront(m.msgType, m.messageId, FieldBytes(m));
    DecodeFieldBytes(m);
  }

  // ---------------------------------------------------------------- the parameter map

  /** A Java map has at most one entry per key. */
  predicate DistinctKeys(ps: seq<Param>)
  {
    forall i, j :: 0 <= i < j < |ps| && ps[i].key.Some? ==> ps[i].key != ps[j].key
  }

  /** The decoded map holds exactly the keys of the entries whose key and value are both non-null. */
  lemma {:induction false} ParamMapKeys(ps: seq<Param>, k: JString)
    ensures k in ParamMap(ps) <==> exists i :: 0 <= i < |ps| && ps[i].key == Some(k) && ps[i].value.Some?
  {
    if ps != [] {
      var init := ps[..|ps| - 1];
      ParamMapKeys(init, k);
      assert forall i :: 0 <= i < |init| ==> init[i] == ps[i];
    }
  }

  /** With distinct keys, each non-null entry is found in the decoded map with its own value. */
  lemma {:induction false} ParamMapLookup(ps: seq<Param>, i: nat)
    requires DistinctKeys(ps)
    requires i < |ps| && ps[i].key.Some? && ps[i].value.Some?
    ensures ps[i].key.value in ParamMap(ps) && ParamMap(ps)[ps[i].key.value] == ps[i].value.value
  {
    var init := ps[..|ps| - 1];
    if i < |ps| - 1 {
      assert DistinctKeys(init) by {
        forall a, b | 0 <= a < b < |init| && init[a].key.Some? ensures init[a].key != init[b].key {
          assert init[a] == ps[a] && init[b] == ps[b];
        }
      }
      assert init[i] == ps[i];
      ParamMapLookup(init, i);
    }
  }

  lemma MapOverwrite<K, V>(m: map<K, V>, k: K, v1: V, v2: V)
    ensures m[k := v1][k := v2] == m[k := v2]
  {
  }

  /** A later parameter with the same key replaces the earlier one. */
  lemma LaterParamWins(key: JString, v1: Value, v2: Value, t: seq<Byte>, acc: Fields)
    requires !v1.Other? && !v2.Other?
    ensures DecodeFields(ParamBytes(key, v1) + ParamBytes(key, v2) + t, acc) == DecodeFields(ParamBytes(key, v2) + t, acc)
  {
    var first, second := ParamBytes(key, v1), ParamBytes(key, v2);
    assert first + second + t == first + (second + t);
    var acc1 := acc.(parameters := acc.parameters[key := v1]);
    var acc2 := acc.(parameters := acc.parameters[key := v2]);
    assert DecodeFields(first + (second + t), acc) == DecodeFields(second + t, acc1) by {
      DecodeParamBytes(key, v1, second + t, acc);
    }
    assert acc1.(parameters := acc1.parameters[key := v2]) == acc2 by {
      MapOverwrite(acc.parameters, key, v1, v2);
    }
    assert DecodeFields(second + t, acc1) == DecodeFields(t, acc2) by {
      DecodeParamBytes(key, v2, t, acc1);
    }
    assert DecodeFields(second + t, acc) == DecodeFields(t, acc2) by {
      DecodeParamBytes(key, v2, t, acc);
    }
  }

  /** A later reply id (or worker process id) field replaces the earlier one. */
  lemma LaterIdWins(opcode: Byte, id1: JString, id2: JString, t: seq<Byte>, acc: Fields)
    requires opcode == OPCODE_REPLYMESSAGEID || opcode == OPCODE_WORKERPROCESSID
    ensures DecodeFields([opcode] + WireString(id1) + [opcode] + WireString(id2) + t, acc) ==
            DecodeFields([opcode] + WireString(id2) + t, acc)
  {
    var second := [opcode] + WireString(id2) + t;
    assert [opcode] + WireString(id1) + [opcode] + WireString(id2) + t == [opcode] + WireString(id1) + second;
    DecodeTaggedString(opcode, id1, second, acc);
    var acc1 := if opcode == OPCODE_REPLYMESSAGEID then acc.(replyMessageId := Some(id1)) else acc.(workerProcessId := Some(id1));
    DecodeTaggedString(opcode, id2, t, acc1);
    DecodeTaggedString(opcode, id2, t, acc);
  }

  /** A byte that is not an opcode is consumed and skipped. */
  lemma UnknownOpcodeSkipped(opcode: Byte, t: seq<Byte>, acc: Fields)
    requires opcode !in {OPCODE_REPLYMESSAGEID, OPCODE_WORKERPROCESSID, OPCODE_STRING_PARAMETER, OPCODE_INT_PARAMETER, OPCODE_LONG_PARAMETER}
    ensures DecodeFields([opcode] + t, acc) == DecodeFields(t, acc)
  {
    assert [] + t == t && [opcode] + [] + t == [opcode] + t;
    DecodeFieldsStep(opcode, [], t, acc, acc);
  }
}

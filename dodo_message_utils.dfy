/**
 * DodoMessageUtils: the encoder that appends a message to a ByteBuf and the
 * decoder that reads one back with the buffer's reader index. Each is proved
 * to do exactly what the wire-format functions of MessageCodec describe.
 */
module DodoMessageUtils {
  import opened Wrappers
  import opened Wire
  import opened Messages
  import opened MessageCodec
  import opened ByteBufs
  import opened Sequences

  method WriteUTF8String(buf: ByteBuf, s: JString)
    modifies buf`bytes
    ensures buf.bytes == old(buf.bytes) + WireString(s)
  {
    buf.WriteInt(|s|);
    buf.WriteBytes(s);
  }

  /** Reads a length, refuses a negative one, then reads that many bytes. */
  method ReadUTF8String(buf: ByteBuf) returns (r: Result<JString, DecodeError>)
    requires buf.Valid()
    modifies buf`readerIndex
    ensures buf.Valid()
    ensures var p := ParseString(old(buf.Remaining()));
      (p.Ok? ==> r == Ok(p.value.0) && buf.Remaining() == p.value.1) && (p.Err? ==> r == Err(p.error))
  {
    var len := buf.ReadInt();
    if len.None? {
      return Err(EndOfBuffer);
    }
    if len.value < 0 {
      return Err(NegativeLength(len.value));
    }
    var s := buf.ReadBytes(len.value);
    if s.None? {
      return Err(EndOfBuffer);
    }
    return Ok(s.value);
  }

  /** Once an entry has thrown, the entries after it change nothing. */
  lemma {:induction false} EncodeParamsStops(ps: seq<Param>, i: nat)
    requires i <= |ps| && EncodeParams(ps[..i]).failure.Some?
    ensures EncodeParams(ps) == EncodeParams(ps[..i])
  {
    if i < |ps| {
      assert ps[..|ps|][..i] == ps[..i];
      var init := ps[..|ps| - 1];
      assert init[..i] == ps[..i];
      EncodeParamsStops(init, i);
    } else {
      assert ps[..i] == ps;
    }
  }

  /** One more entry of the loop, when none before it has thrown. */
  lemma EncodeParamsNext(ps: seq<Param>, i: nat)
    requires i < |ps| && EncodeParams(ps[..i]).failure.None?
    ensures var p, e := ps[i], EncodeParams(ps[..i + 1]);
      if p.key.None? || p.value.None? then e == EncodeParams(ps[..i])
      else if p.value.value.Other? then e == Encoded(EncodeParams(ps[..i]).bytes, Some(BadParameterType(p.key.value)))
      else e == Encoded(EncodeParams(ps[..i]).bytes + ParamBytes(p.key.value, p.value.value), None)
  {
    assert ps[..i + 1][..i] == ps[..i] && ps[..i + 1][i] == ps[i];
  }

  lemma EncodeUnfold(m: Message)
    ensures m.parameters.None? ==> Encode(m) == Encoded(Header(m), None)
    ensures m.parameters.Some? ==>
      Encode(m) == Encoded(Header(m) + EncodeParams(m.parameters.value).bytes, EncodeParams(m.parameters.value).failure)
  {
  }

  /** The bytes of one parameter of a wire type, as the branches of the loop write them. */
  method WriteParam(encoded: ByteBuf, key: JString, v: Value)
    requires !v.Other?
    modifies encoded`bytes
    ensures encoded.bytes == old(encoded.bytes) + ParamBytes(key, v)
  {
    match v
    case Str(s) =>
      encoded.WriteByte(OPCODE_STRING_PARAMETER);
      WriteUTF8String(encoded, key);
      WriteUTF8String(encoded, s);
    case Long(l) =>
      encoded.WriteByte(OPCODE_LONG_PARAMETER);
      WriteUTF8String(encoded, key);
      encoded.WriteLong(l);
    case Int(x) =>
      encoded.WriteByte(OPCODE_INT_PARAMETER);
      WriteUTF8String(encoded, key);
      encoded.WriteInt(x);
  }

  /**
   * The loop of encodeMessage over the parameter entries: skips null keys and
   * values, and stops at the first value of an unsupported class.
   */
  method WriteParams(encoded: ByteBuf, ps: seq<Param>) returns (failure: Option<EncodeError>)
    modifies encoded`bytes
    ensures encoded.bytes == old(encoded.bytes) + EncodeParams(ps).bytes
    ensures failure == EncodeParams(ps).failure
  {
    var i := 0;
    while i < |ps|
      invariant i <= |ps|
      invariant EncodeParams(ps[..i]).failure.None?
      invariant encoded.bytes == old(encoded.bytes) + EncodeParams(ps[..i]).bytes
    {
      var p := ps[i];
      EncodeParamsNext(ps, i);
      if p.key.Some? && p.value.Some? {
        if p.value.value.Other? {
          EncodeParamsStops(ps, i + 1);
          return Some(BadParameterType(p.key.value));
        }
        WriteParam(encoded, p.key.value, p.value.value);
        AppendAssoc(old(encoded.bytes), EncodeParams(ps[..i]).bytes, ParamBytes(p.key.value, p.value.value));
      }
      i := i + 1;
    }
    assert ps[..i] == ps;
    return None;
  }

  /** The reply id or the worker process id with its opcode, when it is non-null. */
  method WriteIdField(encoded: ByteBuf, opcode: Byte, id: Option<JString>)
    modifies encoded`bytes
    ensures encoded.bytes == old(encoded.bytes) + IdField(opcode, id)
  {
    if id.Some? {
      encoded.WriteByte(opcode);
      WriteUTF8String(encoded, id.value);
      AppendAssoc(old(encoded.bytes), [opcode], WireString(id.value));
    } else {
      assert old(encoded.bytes) + [] == old(encoded.bytes);
    }
  }

  /**
   * encodeMessage: appends the encoding of `m` to `encoded`. When a parameter
   * value has an unsupported class it stops there and reports it, leaving the
   * bytes written before it in the buffer.
   */
  method EncodeMessage(encoded: ByteBuf, m: Message) returns (failure: Option<EncodeError>)
    modifies encoded`bytes
    ensures encoded.bytes == old(encoded.bytes) + Encode(m).bytes
    ensures failure == Encode(m).failure
  {
    ghost var start, front := encoded.bytes, [VERSION] + Int32ToBytes(m.msgType);
    encoded.WriteByte(VERSION);
    encoded.WriteInt(m.msgType);
    AppendAssoc(start, [VERSION], Int32ToBytes(m.msgType));
    WriteUTF8String(encoded, m.messageId);
    AppendAssoc(start, front, WireString(m.messageId));
    front := front + WireString(m.messageId);
    WriteIdField(encoded, OPCODE_REPLYMESSAGEID, m.replyMessageId);
    AppendAssoc(start, front, IdField(OPCODE_REPLYMESSAGEID, m.replyMessageId));
    front := front + IdField(OPCODE_REPLYMESSAGEID, m.replyMessageId);
    WriteIdField(encoded, OPCODE_WORKERPROCESSID, m.workerProcessId);
    AppendAssoc(start, front, IdField(OPCODE_WORKERPROCESSID, m.workerProcessId));
    ghost var header := Header(m);
    EncodeUnfold(m);
    failure := None;
    if m.parameters.Some? {
      var ps := m.parameters.value;
      failure := WriteParams(encoded, ps);
      AppendAssoc(old(encoded.bytes), header, EncodeParams(ps).bytes);
    } else {
      assert Encode(m).bytes == header;
    }
  }

  /**
   * One pass of the switch of decodeMessage, after the opcode byte: reads the
   * payload the opcode calls for and records it; an opcode with no case reads
   * nothing and changes nothing.
   */
  method ReadField(encoded: ByteBuf, op: Byte, acc: Fields) returns (r: Result<Fields, DecodeError>)
    requires encoded.Valid()
    modifies encoded`readerIndex
    ensures encoded.Valid()
    ensures var d := DecodeField(op, old(encoded.Remaining()), acc);
      (d.Ok? ==> r == Ok(d.value.0) && encoded.Remaining() == d.value.1) && (d.Err? ==> r == Err(d.error))
  {
    ghost var input := encoded.Remaining();
    if op == OPCODE_REPLYMESSAGEID {
      var id := ReadUTF8String(encoded);
      if id.Err? {
        return Err(id.error);
      }
      DecodeFieldIdStep(op, input, id.value, encoded.Remaining(), acc);
      r := Ok(acc.(replyMessageId := Some(id.value)));
    } else if op == OPCODE_WORKERPROCESSID {
      var id := ReadUTF8String(encoded);
      if id.Err? {
        return Err(id.error);
      }
      DecodeFieldIdStep(op, input, id.value, encoded.Remaining(), acc);
      r := Ok(acc.(workerProcessId := Some(id.value)));
    } else if op == OPCODE_INT_PARAMETER {
      var key := ReadUTF8String(encoded);
      if key.Err? {
        return Err(key.error);
      }
      ghost var more := encoded.Remaining();
      var p := encoded.ReadInt();
      if p.None? {
        return Err(EndOfBuffer);
      }
      DecodeFieldParamStep(op, input, key.value, more, Int(p.value), encoded.Remaining(), acc);
      r := Ok(acc.(parameters := acc.parameters[key.value := Int(p.value)]));
    } else if op == OPCODE_LONG_PARAMETER {
      var key := ReadUTF8String(encoded);
      if key.Err? {
        return Err(key.error);
      }
      ghost var more := encoded.Remaining();
      var p := encoded.ReadLong();
      if p.None? {
        return Err(EndOfBuffer);
      }
      DecodeFieldParamStep(op, input, key.value, more, Long(p.value), encoded.Remaining(), acc);
      r := Ok(acc.(parameters := acc.parameters[key.value := Long(p.value)]));
    } else if op == OPCODE_STRING_PARAMETER {
      var key := ReadUTF8String(encoded);
      if key.Err? {
        return Err(key.error);
      }
      ghost var more := encoded.Remaining();
      var p := ReadUTF8String(encoded);
      if p.Err? {
        return Err(p.error);
      }
      DecodeFieldParamStep(op, input, key.value, more, Str(p.value), encoded.Remaining(), acc);
      r := Ok(acc.(parameters := acc.parameters[key.value := Str(p.value)]));
    } else {
      r := Ok(acc);
    }
  }

  /**
   * decodeMessage: reads one message from the readable bytes of `encoded`,
   * consuming all of them when it succeeds.
   */
  method DecodeMessage(encoded: ByteBuf) returns (r: Result<DecodedMessage, DecodeError>)
    requires encoded.Valid()
    modifies encoded`readerIndex
    ensures encoded.Valid()
    ensures r == Decode(old(encoded.Remaining()))
    ensures r.Ok? ==> !encoded.IsReadable()
  {
    ghost var input := encoded.Remaining();
    var version := encoded.ReadByte();
    if version.None? {
      return Err(EndOfBuffer);
    }
    if version.value != VERSION {
      return Err(BadVersion(version.value));
    }
    assert encoded.Remaining() == input[1..];
    var msgType := encoded.ReadInt();
    if msgType.None? {
      return Err(EndOfBuffer);
    }
    assert ParseInt(input[1..]) == Ok((msgType.value, encoded.Remaining()));
    var messageId := ReadUTF8String(encoded);
    if messageId.Err? {
      return Err(messageId.error);
    }
    ghost var fieldsStart := encoded.Remaining();
    assert Decode(input) == Finish(msgType.value, messageId.value, DecodeFields(fieldsStart, NoFields));

    var fields := NoFields;
    while encoded.IsReadable()
      invariant encoded.Valid()
      invariant DecodeFields(encoded.Remaining(), fields) == DecodeFields(fieldsStart, NoFields)
      decreases |encoded.Remaining()|
    {
      ghost var before := encoded.Remaining();
      var opcode := encoded.ReadByte();
      assert encoded.Remaining() == before[1..] && opcode.value == before[0];
      var next := ReadField(encoded, opcode.value, fields);
      if next.Err? {
        return Err(next.error);
      }
      fields := next.value;
    }
    return Ok(DecodedMessage(msgType.value, messageId.value, fields.replyMessageId, fields.workerProcessId, fields.parameters));
  }

  /**
   * A message encoded into a fresh buffer and decoded from it comes back with
   * every field, its parameters as the map of their non-null entries, when
   * encoding did not throw.
   */
  method EncodeThenDecode(m: Message) returns (r: Result<DecodedMessage, DecodeError>)
    requires Encode(m).failure.None?
    ensures r == Ok(Decoded(m))
  {
    var buf := new ByteBuf();
    var failure := EncodeMessage(buf, m);
    assert buf.Remaining() == Encode(m).bytes;
    r := DecodeMessage(buf);
    RoundTrip(m);
  }
}

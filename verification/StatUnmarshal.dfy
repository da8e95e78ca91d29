/** The imperative decoders: loops over a moving index, a shift and a group depth,
    proved equal to the specification on every byte string.  That they verify shows
    that they terminate and never read past the end. */
module StatUnmarshal {
  import opened Common
  import opened StatWire
  import opened StatCodec
  import StatMarshal
  import Bits

  /** A result whose length is counted from k bytes further left. */
  function Shifted<T>(r: Result<(T, nat)>, k: nat): Result<(T, nat)> {
    match r
    case Ok((v, n)) => Ok((v, k + n))
    case Err(e) => Err(e)
  }

  /** The varint loop every decoder repeats: the value and the index after it. */
  method ReadVarint(data: seq<Byte>, start: nat) returns (r: Result<(nat, nat)>)
    requires start <= |data|
    ensures r == Shifted(Varint(data[start..]), start)
  {
    var i: nat, shift: nat, acc: nat := start, 0, 0;
    while true
      invariant start <= i <= |data|
      invariant Shifted(DecVarint(data[i..], shift, acc), i) == Shifted(Varint(data[start..]), start)
      decreases |data| - i
    {
      if shift >= 64 {
        return Err(IntOverflow);
      }
      if i >= |data| {
        return Err(UnexpectedEOF);
      }
      var b := data[i];
      assert data[i..][1..] == data[i + 1..];
      i := i + 1;
      acc := (acc + (b % 128) * Bits.Pow2(shift)) % TWO64;
      if b < 128 {
        return Ok((acc, i));
      }
      shift := shift + 7;
    }
  }

  /** The body of skipStat's switch for an item of the given wire type at index at. */
  method SkipItem(data: seq<Byte>, ghost i: nat, at: nat, wireType: nat, depth: nat)
    returns (r: Result<(nat, nat)>)
    requires i < at <= |data|
    ensures r.Ok? ==> r.value.0 >= at && SkipOne(data[i..], at - i, wireType, depth) == Ok((r.value.0 - i, r.value.1))
    ensures r.Err? ==> SkipOne(data[i..], at - i, wireType, depth) == Err(r.error)
  {
    hide DecVarint;
    assert data[i..][at - i..] == data[at..];
    if wireType == 0 || wireType == 2 {
      var v := ReadVarint(data, at);
      if v.Err? {
        return Err(v.error);
      }
      var (x, next) := v.value;
      if wireType == 0 {
        return Ok((next, depth));
      }
      if x >= TWO63 {
        return Err(InvalidLength);
      }
      return Ok((next + x, depth));
    } else if wireType == 1 {
      return Ok((at + 8, depth));
    } else if wireType == 3 {
      return Ok((at, depth + 1));
    } else if wireType == 4 {
      if depth == 0 {
        return Err(UnexpectedEndOfGroup);
      }
      return Ok((at, depth - 1));
    } else if wireType == 5 {
      return Ok((at + 4, depth));
    }
    return Err(IllegalWireType);
  }

  /** skipStat. */
  method SkipStat(data: seq<Byte>) returns (r: Result<nat>)
    ensures r == Skip(data, 0, 0)
  {
    hide DecVarint, SkipOne;
    var i: nat, depth: nat := 0, 0;
    assert data[0..] == data;
    while i < |data|
      invariant i <= |data| ==> Skip(data[i..], i, depth) == Skip(data, 0, 0)
      invariant i > |data| ==> Skip(data, 0, 0) == Err(UnexpectedEOF)
      decreases |data| - i
    {
      var tag := ReadVarint(data, i);
      if tag.Err? {
        return Err(tag.error);
      }
      var (wire, at) := tag.value;
      var item := SkipItem(data, i, at, wire % 8, depth);
      if item.Err? {
        return Err(item.error);
      }
      var (next, depth') := item.value;
      if next >= TWO63 {
        return Err(InvalidLength);
      }
      if depth' == 0 {
        return Ok(next);
      }
      if next <= |data| {
        assert data[next..] == data[i..][next - i..];
      }
      i, depth := next, depth';
    }
    return Err(UnexpectedEOF);
  }

  /** One turn of an Unmarshal loop up to the point where the field is stored. */
  method ReadField(data: seq<Byte>, i: nat, schema: Schema) returns (r: Result<(Field, nat)>)
    requires i < |data|
    ensures r == Shifted(NextField(data[i..], i, schema), i)
  {
    hide DecVarint, Skip;
    var rest := data[i..];
    var tag := ReadVarint(data, i);
    if tag.Err? {
      return Err(tag.error);
    }
    var (wire, at) := tag.value;
    var num := FieldNumber(wire);
    if wire % 8 == 4 {
      return Err(EndGroup);
    }
    if num <= 0 {
      return Err(IllegalTag);
    }
    if num in schema {
      if wire % 8 != schema[num] {
        return Err(WrongWireType);
      }
      assert data[at..] == rest[at - i..];
      var f := ReadPayload(data, at, num, wire % 8);
      return f;
    }
    var skipped := SkipStat(rest);
    if skipped.Err? {
      return Err(skipped.error);
    }
    var n := skipped.value;
    if i + n >= TWO63 {
      return Err(InvalidLength);
    }
    if i + n > |data| {
      return Err(UnexpectedEOF);
    }
    return Ok((UnknownField, i + n));
  }

  method ReadPayload(data: seq<Byte>, i: nat, num: nat, wireType: nat) returns (r: Result<(Field, nat)>)
    requires i <= |data|
    ensures r == Shifted(Payload(data[i..], i, num, wireType), i)
  {
    hide DecVarint;
    ghost var rest := data[i..];
    if wireType == 1 {
      if i + 8 > |data| {
        return Err(UnexpectedEOF);
      }
      assert rest[..8] == data[i..i + 8];
      return Ok((Fixed64Field(num, FromLittleEndian(data[i..i + 8])), i + 8));
    }
    var v := ReadVarint(data, i);
    if v.Err? {
      return Err(v.error);
    }
    var (x, at) := v.value;
    if wireType == 0 {
      return Ok((VarintField(num, x), at));
    }
    if x >= TWO63 {
      return Err(InvalidLength);
    }
    var postIndex := at + x;
    if postIndex >= TWO63 {
      return Err(InvalidLength);
    }
    if postIndex > |data| {
      return Err(UnexpectedEOF);
    }
    assert rest[at - i..at - i + x] == data[at..postIndex];
    return Ok((BytesField(num, data[at..postIndex]), postIndex));
  }

  /** Unmarshal of the message's own type, into msg. */
  method Unmarshal(data: seq<Byte>, msg: Message) returns (r: Result<Message>)
    ensures r == Decode(data, 0, msg)
    decreases msg.Rank(), |data|, 1
  {
    hide NextField, Apply;
    var i, m := 0, msg;
    assert data[0..] == data;
    while i < |data|
      invariant 0 <= i <= |data| && m.Rank() == msg.Rank()
      invariant Decode(data[i..], i, m) == Decode(data, 0, msg)
      decreases |data| - i
    {
      var turn := ReadField(data, i, m.Fields());
      if turn.Err? {
        return Err(turn.error);
      }
      var (f, next) := turn.value;
      assert data[i..][next - i..] == data[next..];
      assert FieldLen(f) < |data[i..]|;
      var stored := Store(m, f);
      if stored.Err? {
        return Err(stored.error);
      }
      i, m := next, stored.value;
    }
    return Ok(m);
  }

  /** The generated switch: assigns the field, decoding a nested message if need be. */
  method Store(msg: Message, f: Field) returns (r: Result<Message>)
    ensures r == Apply(msg, f)
    decreases msg.Rank(), FieldLen(f), 0
  {
    hide Decode;
    if f.BytesField? && msg.WireMsg? && f.num != 1 && f.num != 2 {
      var inner := Unmarshal(f.payload, StatMsg(if msg.wire.stat.None? then EMPTY_STAT else msg.wire.stat.value));
      if inner.Err? {
        return Err(inner.error);
      }
      r := Ok(WireMsg(msg.wire.(stat := Some(inner.value.stat))));
    } else if f.BytesField? && msg.ListMsg? {
      var inner := Unmarshal(f.payload, WireMsg(EMPTY_WIRE));
      if inner.Err? {
        return Err(inner.error);
      }
      r := Ok(ListMsg(msg.messages + [inner.value.wire]));
    } else if msg.WireMsg? && f.BytesField? {
      r := Ok(WireMsg(if f.num == 1 then msg.wire.(namespace := f.payload) else msg.wire.(name := f.payload)));
    } else if msg.StatMsg? {
      var s := msg.stat;
      match f {
        case BytesField(_, payload) => s := s.(podName := payload);
        case VarintField(_, v) => s := s.(timestamp := if v >= TWO63 then v - TWO64 else v);
        case Fixed64Field(num, v) =>
          if num == 2 {
            s := s.(averageConcurrentRequests := v);
          } else if num == 3 {
            s := s.(averageProxiedConcurrentRequests := v);
          } else if num == 4 {
            s := s.(requestCount := v);
          } else if num == 5 {
            s := s.(proxiedRequestCount := v);
          } else {
            s := s.(processUptime := v);
          }
        case UnknownField =>
      }
      r := Ok(StatMsg(s));
    } else {
      r := Ok(msg);
    }
  }

  /** End to end through both imperative halves: any list of messages that fits in a Go
      slice is sent in exactly Size bytes and comes back, up to the sign of zero. */
  method SendAndReceive(ms: seq<WireStatMessage>) returns (sent: seq<Byte>, got: Result<Message>)
    requires ListOk(ms) && StatMarshal.SizeList(ms) < TWO63
    ensures |sent| == StatMarshal.SizeList(ms)
    ensures got == Ok(ListMsg(NormalList(ms)))
  {
    hide Decode, EncList;
    sent := StatMarshal.MarshalList(ms);
    ListRoundTrip(ms);
    got := Unmarshal(sent, ListMsg([]));
  }
}

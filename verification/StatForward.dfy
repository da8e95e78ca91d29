/** Forward compatibility of the stat decoders: unknown fields, nested groups included,
    are skipped whole wherever they are inserted between two fields. */
module StatForward {
  import opened StatWire
  import opened StatCodec

  /** A well-formed field of any wire type, as another version of the schema may send. */
  datatype Unknown =
    | Number(num: nat, v: nat)
    | Wide(num: nat, eight: seq<Byte>)
    | Blob(num: nat, payload: seq<Byte>)
    | Group(num: nat, body: seq<Unknown>)
    | Narrow(num: nat, four: seq<Byte>)
  {
    /** Field numbers are below 2^29; groups hold well-formed fields. */
    ghost predicate Ok()
      decreases this
    {
      && 1 <= num < 0x2000_0000
      && match this
         case Number(_, v) => v < TWO64
         case Wide(_, eight) => |eight| == 8
         case Blob(_, payload) => |payload| < TWO63
         case Group(_, body) => forall i :: 0 <= i < |body| ==> body[i].Ok()
         case Narrow(_, four) => |four| == 4
    }
  }

  function Tag(num: nat, wireType: nat): seq<Byte> {
    EncVarint(8 * num + wireType)
  }

  function EncUnknown(u: Unknown): (bs: seq<Byte>)
    ensures |bs| > 0
    decreases u, 0
  {
    match u
    case Number(num, v) => Tag(num, 0) + EncVarint(v)
    case Wide(num, eight) => Tag(num, 1) + eight
    case Blob(num, payload) => Tag(num, 2) + (EncVarint(|payload|) + payload)
    case Group(num, body) => Tag(num, 3) + (EncUnknowns(body) + Tag(num, 4))
    case Narrow(num, four) => Tag(num, 5) + four
  }

  function EncUnknowns(us: seq<Unknown>): seq<Byte>
    decreases us, 1
  {
    if us == [] then [] else EncUnknown(us[0]) + EncUnknowns(us[1..])
  }

  lemma TagDecodes(num: nat, wireType: nat, rest: seq<Byte>)
    requires num < 0x2000_0000 && wireType < 8
    ensures Varint(Tag(num, wireType) + rest) == Ok((8 * num + wireType, |Tag(num, wireType)|))
    ensures (8 * num + wireType) % 8 == wireType && FieldNumber(8 * num + wireType) == num
    ensures |Tag(num, wireType)| > 0 && (Tag(num, wireType) + rest)[|Tag(num, wireType)|..] == rest
  {
    hide Varint, EncVarint;
    VarintRoundTrip(8 * num + wireType, rest);
  }

  /** One wire item read by skipStat: a tag and what SkipOne makes of it. */
  lemma SkipItem(num: nat, wireType: nat, rest: seq<Byte>, pos: nat, depth: nat, n: nat, depth': nat)
    requires num < 0x2000_0000 && wireType < 8
    requires SkipOne(Tag(num, wireType) + rest, |Tag(num, wireType)|, wireType, depth) == Ok((n, depth'))
    requires n <= |Tag(num, wireType) + rest| && pos + n < TWO63
    ensures Skip(Tag(num, wireType) + rest, pos, depth) ==
            if depth' == 0 then Ok(pos + n) else Skip((Tag(num, wireType) + rest)[n..], pos + n, depth')
  {
    hide Varint, SkipOne, EncVarint;
    TagDecodes(num, wireType, rest);
  }

  /** Skipping goes exactly to the end of a well-formed field, at any depth. */
  lemma {:induction false} SkipUnknown(u: Unknown, rest: seq<Byte>, pos: nat, depth: nat)
    requires u.Ok() && pos + |EncUnknown(u)| + |rest| < TWO63
    ensures Skip(EncUnknown(u) + rest, pos, depth) ==
            if depth == 0 then Ok(pos + |EncUnknown(u)|) else Skip(rest, pos + |EncUnknown(u)|, depth)
    decreases u, 0
  {
    hide Skip, Varint, EncVarint;
    var data := EncUnknown(u) + rest;
    match u
    case Number(num, v) => SkipNumber(num, v, rest, pos, depth);
    case Wide(num, eight) => SkipFixed(num, 1, eight, rest, pos, depth);
    case Narrow(num, four) => SkipFixed(num, 5, four, rest, pos, depth);
    case Blob(num, payload) => SkipBlob(num, payload, rest, pos, depth);
    case Group(num, body) =>
      var k, e := |Tag(num, 3)|, |EncUnknowns(body)|;
      var tail := Tag(num, 4) + rest;
      assert data == Tag(num, 3) + (EncUnknowns(body) + tail);
      SkipItem(num, 3, EncUnknowns(body) + tail, pos, depth, k, depth + 1);
      assert data[k..] == EncUnknowns(body) + tail;
      SkipUnknowns(body, tail, pos + k, depth + 1);
      SkipItem(num, 4, rest, pos + k + e, depth + 1, |Tag(num, 4)|, depth);
      assert tail[|Tag(num, 4)|..] == rest;
  }

  lemma {:induction false} SkipUnknowns(us: seq<Unknown>, rest: seq<Byte>, pos: nat, depth: nat)
    requires (forall i :: 0 <= i < |us| ==> us[i].Ok()) && depth > 0
    requires pos + |EncUnknowns(us)| + |rest| < TWO63
    ensures Skip(EncUnknowns(us) + rest, pos, depth) == Skip(rest, pos + |EncUnknowns(us)|, depth)
    decreases us, 1
  {
    hide Skip;
    if us == [] {
      assert EncUnknowns(us) + rest == rest;
    } else {
      var head, tail := EncUnknown(us[0]), EncUnknowns(us[1..]);
      assert EncUnknowns(us) + rest == head + (tail + rest);
      SkipUnknown(us[0], tail + rest, pos, depth);
      SkipUnknowns(us[1..], rest, pos + |head|, depth);
    }
  }

  lemma SkipNumber(num: nat, v: nat, rest: seq<Byte>, pos: nat, depth: nat)
    requires num < 0x2000_0000 && v < TWO64 && pos + |Tag(num, 0)| + |EncVarint(v)| + |rest| < TWO63
    ensures var n := |Tag(num, 0)| + |EncVarint(v)|;
            Skip(Tag(num, 0) + EncVarint(v) + rest, pos, depth) ==
            if depth == 0 then Ok(pos + n) else Skip(rest, pos + n, depth)
  {
    hide Skip, Varint, EncVarint;
    var k := |Tag(num, 0)|;
    var data := Tag(num, 0) + (EncVarint(v) + rest);
    assert Tag(num, 0) + EncVarint(v) + rest == data;
    assert data[k..] == EncVarint(v) + rest;
    TagDecodes(num, 0, EncVarint(v) + rest);
    VarintRoundTrip(v, rest);
    SkipItem(num, 0, EncVarint(v) + rest, pos, depth, k + |EncVarint(v)|, depth);
    assert data[k + |EncVarint(v)|..] == rest;
  }

  lemma SkipFixed(num: nat, wireType: nat, bytes: seq<Byte>, rest: seq<Byte>, pos: nat, depth: nat)
    requires num < 0x2000_0000 && pos + |Tag(num, wireType)| + |bytes| + |rest| < TWO63
    requires (wireType == 1 && |bytes| == 8) || (wireType == 5 && |bytes| == 4)
    ensures var n := |Tag(num, wireType)| + |bytes|;
            Skip(Tag(num, wireType) + bytes + rest, pos, depth) ==
            if depth == 0 then Ok(pos + n) else Skip(rest, pos + n, depth)
  {
    hide Skip, Varint, EncVarint;
    var k := |Tag(num, wireType)|;
    var data := Tag(num, wireType) + (bytes + rest);
    assert Tag(num, wireType) + bytes + rest == data;
    TagDecodes(num, wireType, bytes + rest);
    SkipItem(num, wireType, bytes + rest, pos, depth, k + |bytes|, depth);
    assert data[k + |bytes|..] == rest;
  }

  lemma SkipBlob(num: nat, payload: seq<Byte>, rest: seq<Byte>, pos: nat, depth: nat)
    requires num < 0x2000_0000
    requires pos + |Tag(num, 2) + (EncVarint(|payload|) + payload)| + |rest| < TWO63
    ensures var head := Tag(num, 2) + (EncVarint(|payload|) + payload);
            Skip(head + rest, pos, depth) ==
            if depth == 0 then Ok(pos + |head|) else Skip(rest, pos + |head|, depth)
  {
    hide Skip, Varint, EncVarint;
    var len := EncVarint(|payload|);
    var head := Tag(num, 2) + (len + payload);
    var k := |Tag(num, 2)|;
    var data := Tag(num, 2) + (len + (payload + rest));
    assert head + rest == data;
    assert data[k..] == len + (payload + rest);
    TagDecodes(num, 2, len + (payload + rest));
    VarintRoundTrip(|payload|, payload + rest);
    SkipItem(num, 2, len + (payload + rest), pos, depth, |head|, depth);
    assert data[|head|..] == rest;
  }

  /** An unknown field is one turn of the loop that stores nothing. */
  lemma NextUnknown(u: Unknown, rest: seq<Byte>, base: nat, schema: Schema)
    requires u.Ok() && u.num !in schema && base + |EncUnknown(u)| + |rest| < TWO63
    ensures NextField(EncUnknown(u) + rest, base, schema) == Ok((UnknownField, |EncUnknown(u)|))
  {
    hide Skip, Varint, EncVarint;
    var data := EncUnknown(u) + rest;
    SkipUnknown(u, rest, 0, 0);
    var wt := match u case Number(_, _) => 0 case Wide(_, _) => 1 case Blob(_, _) => 2
                      case Group(_, _) => 3 case Narrow(_, _) => 5;
    var body := data[|Tag(u.num, wt)|..];
    assert data == Tag(u.num, wt) + body;
    TagDecodes(u.num, wt, body);
  }

  /** Decoding a concatenation whose first part is whole fields. */
  lemma {:induction false} DecodeAppend(a: seq<Byte>, b: seq<Byte>, base: nat, msg: Message)
    requires Decode(a, base, msg).Ok?
    ensures Decode(a + b, base, msg) == Decode(b, base + |a|, Decode(a, base, msg).value)
    decreases |a|
  {
    hide NextField, Apply;
    if a == [] {
      assert a + b == b;
    } else {
      NextFieldLocal(a, b, base, msg.Fields());
      var (f, n) := NextField(a, base, msg.Fields()).value;
      var msg' := Apply(msg, f).value;
      assert (a + b)[n..] == a[n..] + b;
      DecodeAppend(a[n..], b, base + n, msg');
    }
  }

  /** The same message, or a failure on both sides. */
  predicate SameMessage(r: Result<Message>, r': Result<Message>) {
    r.Ok? == r'.Ok? && (r.Ok? ==> r == r')
  }

  lemma {:induction false} DecodeBase(data: seq<Byte>, base: nat, base': nat, msg: Message)
    requires base + |data| < TWO63 && base' + |data| < TWO63
    ensures SameMessage(Decode(data, base, msg), Decode(data, base', msg))
    decreases |data|
  {
    hide NextField, Apply;
    if data != [] {
      NextFieldBase(data, base, base', msg.Fields());
      NextFieldBase(data, base', base, msg.Fields());
      if NextField(data, base, msg.Fields()).Ok? {
        var (f, n) := NextField(data, base, msg.Fields()).value;
        if Apply(msg, f).Ok? {
          DecodeBase(data[n..], base + n, base' + n, Apply(msg, f).value);
        }
      }
    }
  }

  /** Inserting an unknown field between two fields changes nothing, whether the rest
      of the message is well formed or not. */
  lemma InsertUnknown(a: seq<Byte>, u: Unknown, b: seq<Byte>, msg: Message)
    requires u.Ok() && u.num !in msg.Fields() && Decode(a, 0, msg).Ok?
    requires |a| + |EncUnknown(u)| + |b| < TWO63
    ensures Decode(a + EncUnknown(u) + b, 0, msg).Ok? <==> Decode(a + b, 0, msg).Ok?
    ensures Decode(a + b, 0, msg).Ok? ==> Decode(a + EncUnknown(u) + b, 0, msg) == Decode(a + b, 0, msg)
  {
    hide Decode, NextField, Apply, EncUnknown, Unknown.Ok;
    var x := EncUnknown(u);
    var msg' := Decode(a, 0, msg).value;
    FieldsOfRank(msg, msg');
    assert a + x + b == a + (x + b);
    DecodeAppend(a, x + b, 0, msg);
    DecodeAppend(a, b, 0, msg);
    NextUnknown(u, b, |a|, msg'.Fields());
    ApplyUnknown(msg');
    DecodeFirst(x, b, |a|, msg', UnknownField, msg');
    DecodeBase(b, |a| + |x|, |a|, msg');
  }

  lemma ApplyUnknown(msg: Message)
    ensures Apply(msg, UnknownField) == Ok(msg)
  {
  }

  lemma FieldsOfRank(m: Message, m': Message)
    requires m.Rank() == m'.Rank()
    ensures m.Fields() == m'.Fields()
  {
  }
}

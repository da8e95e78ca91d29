/** The three stat messages: their Marshal, Size and Unmarshal.  Floats are their
    64-bit patterns; strings are bytes.  The generated decoders differ only in their
    fields, so one decoder serves all three. */
module StatCodec {
  import opened Common
  import opened StatWire
  import Bits

  const MIN_INT64: int := 0 - TWO63

  datatype Stat = Stat(
    podName: seq<Byte>,
    averageConcurrentRequests: nat,
    averageProxiedConcurrentRequests: nat,
    requestCount: nat,
    proxiedRequestCount: nat,
    processUptime: nat,
    timestamp: int)

  datatype WireStatMessage = WireStatMessage(namespace: seq<Byte>, name: seq<Byte>, stat: Option<Stat>)

  const EMPTY_STAT := Stat([], 0, 0, 0, 0, 0, 0)

  const EMPTY_WIRE := WireStatMessage([], [], None)

  /** What the Go field types hold. */
  predicate StatOk(m: Stat) {
    && m.averageConcurrentRequests < TWO64 && m.averageProxiedConcurrentRequests < TWO64
    && m.requestCount < TWO64 && m.proxiedRequestCount < TWO64 && m.processUptime < TWO64
    && MIN_INT64 <= m.timestamp < TWO63
  }

  predicate WireOk(m: WireStatMessage) {
    m.stat.Some? ==> StatOk(m.stat.value)
  }

  /** `f != 0` fails for both zeros, so a negative zero is not sent. */
  predicate IsZero(f: nat) { f == 0 || f == TWO63 }

  function PlusZero(f: nat): nat { if IsZero(f) then 0 else f }

  /** The message with its two zeros identified. */
  function NormalStat(m: Stat): Stat {
    Stat(m.podName, PlusZero(m.averageConcurrentRequests), PlusZero(m.averageProxiedConcurrentRequests),
         PlusZero(m.requestCount), PlusZero(m.proxiedRequestCount), PlusZero(m.processUptime), m.timestamp)
  }

  function NormalWire(m: WireStatMessage): WireStatMessage {
    m.(stat := if m.stat.None? then None else Some(NormalStat(m.stat.value)))
  }

  function NormalList(ms: seq<WireStatMessage>): seq<WireStatMessage> {
    seq(|ms|, i requires 0 <= i < |ms| => NormalWire(ms[i]))
  }

  function ToUint64(t: int): nat
    requires MIN_INT64 <= t < TWO64
  {
    if t < 0 then t + TWO64 else t
  }

  function ToInt64(v: nat): int {
    if v >= TWO63 then v - TWO64 else v
  }

  // ----- encoding

  function EncBytes(tag: Byte, s: seq<Byte>): seq<Byte> {
    [tag] + (EncVarint(|s|) + s)
  }

  function EncString(tag: Byte, s: seq<Byte>): seq<Byte> {
    if s == [] then [] else EncBytes(tag, s)
  }

  function EncFloat(tag: Byte, f: nat): seq<Byte> {
    if IsZero(f) then [] else [tag] + LittleEndian(f, 8)
  }

  function EncInt(tag: Byte, t: int): seq<Byte>
    requires MIN_INT64 <= t < TWO64
  {
    if t == 0 then [] else [tag] + EncVarint(ToUint64(t))
  }

  /** Field number k of a Stat on the wire. */
  function EncStatField(m: Stat, k: nat): seq<Byte>
    requires StatOk(m)
  {
    match k
    case 1 => EncString(0x0a, m.podName)
    case 2 => EncFloat(0x11, m.averageConcurrentRequests)
    case 3 => EncFloat(0x19, m.averageProxiedConcurrentRequests)
    case 4 => EncFloat(0x21, m.requestCount)
    case 5 => EncFloat(0x29, m.proxiedRequestCount)
    case 6 => EncFloat(0x31, m.processUptime)
    case 7 => EncInt(0x38, m.timestamp)
    case _ => []
  }

  /** The fields from number k on, in order. */
  function EncStatFrom(m: Stat, k: nat): seq<Byte>
    requires StatOk(m)
    decreases 8 - k
  {
    if k > 7 then [] else EncStatField(m, k) + EncStatFrom(m, k + 1)
  }

  function EncStat(m: Stat): seq<Byte>
    requires StatOk(m)
  {
    EncStatFrom(m, 1)
  }

  function EncWire(m: WireStatMessage): seq<Byte>
    requires WireOk(m)
  {
    EncString(0x0a, m.namespace) + (EncString(0x12, m.name) + EncOptionalStat(m.stat))
  }

  function EncOptionalStat(s: Option<Stat>): seq<Byte>
    requires s.Some? ==> StatOk(s.value)
  {
    if s.None? then [] else EncBytes(0x1a, EncStat(s.value))
  }

  ghost predicate ListOk(ms: seq<WireStatMessage>) {
    forall i :: 0 <= i < |ms| ==> WireOk(ms[i])
  }

  function EncList(ms: seq<WireStatMessage>): seq<Byte>
    requires ListOk(ms)
  {
    if ms == [] then [] else EncBytes(0x0a, EncWire(ms[0])) + EncList(ms[1..])
  }

  // ----- decoding

  datatype Message =
    | StatMsg(stat: Stat)
    | WireMsg(wire: WireStatMessage)
    | ListMsg(messages: seq<WireStatMessage>)
  {
    function Rank(): nat {
      match this case StatMsg(_) => 0 case WireMsg(_) => 1 case ListMsg(_) => 2
    }

    /** The wire type of each field number the generated switch knows. */
    function Fields(): Schema {
      match this
      case StatMsg(_) => map[1 := 2, 2 := 1, 3 := 1, 4 := 1, 5 := 1, 6 := 1, 7 := 0]
      case WireMsg(_) => map[1 := 2, 2 := 2, 3 := 2]
      case ListMsg(_) => map[1 := 2]
    }
  }

  function FieldLen(f: Field): nat {
    if f.BytesField? then |f.payload| else 0
  }

  /** Stores one decoded field; a nested Stat merges into the one already there. */
  function Apply(msg: Message, f: Field): (r: Result<Message>)
    ensures r.Ok? ==> r.value.Rank() == msg.Rank()
    decreases msg.Rank(), FieldLen(f)
  {
    if f.UnknownField? then Ok(msg)
    else match msg
      case StatMsg(s) => Ok(StatMsg(SetStatField(s, f)))
      case WireMsg(w) =>
        if !f.BytesField? then Ok(msg)
        else if f.num == 1 then Ok(WireMsg(w.(namespace := f.payload)))
        else if f.num == 2 then Ok(WireMsg(w.(name := f.payload)))
        else
          var inner :- Decode(f.payload, 0, StatMsg(if w.stat.None? then EMPTY_STAT else w.stat.value));
          Ok(WireMsg(w.(stat := Some(inner.stat))))
      case ListMsg(ms) =>
        if !f.BytesField? then Ok(msg)
        else
          var inner :- Decode(f.payload, 0, WireMsg(EMPTY_WIRE));
          Ok(ListMsg(ms + [inner.wire]))
  }

  function SetStatField(s: Stat, f: Field): Stat {
    match f
    case BytesField(_, payload) => s.(podName := payload)
    case VarintField(_, v) => s.(timestamp := ToInt64(v))
    case Fixed64Field(num, v) =>
      (match num
       case 2 => s.(averageConcurrentRequests := v)
       case 3 => s.(averageProxiedConcurrentRequests := v)
       case 4 => s.(requestCount := v)
       case 5 => s.(proxiedRequestCount := v)
       case _ => s.(processUptime := v))
    case UnknownField => s
  }

  /** Unmarshal, from a point base bytes in, into a message that may already hold fields. */
  function Decode(data: seq<Byte>, base: nat, msg: Message): (r: Result<Message>)
    ensures r.Ok? ==> r.value.Rank() == msg.Rank()
    decreases msg.Rank(), |data|
  {
    if data == [] then Ok(msg)
    else
      var (f, n) :- NextField(data, base, msg.Fields());
      var msg' :- Apply(msg, f);
      Decode(data[n..], base + n, msg')
  }

  // ----- round trip

  lemma TagByte(tag: Byte, rest: seq<Byte>)
    requires tag < 128
    ensures Varint([tag] + rest) == Ok((tag, 1))
  {
    hide DecVarint;
    assert EncVarint(tag) == [tag];
    VarintRoundTrip(tag, rest);
  }

  lemma NextBytes(tag: Byte, s: seq<Byte>, rest: seq<Byte>, base: nat, schema: Schema)
    requires 8 < tag < 128 && tag % 8 == 2 && tag / 8 in schema && schema[tag / 8] == 2
    requires base + |EncBytes(tag, s)| + |rest| < TWO63
    ensures NextField(EncBytes(tag, s) + rest, base, schema) == Ok((BytesField(tag / 8, s), |EncBytes(tag, s)|))
  {
    hide DecVarint, Skip;
    var data := EncBytes(tag, s) + rest;
    assert data == [tag] + (EncVarint(|s|) + (s + rest));
    TagByte(tag, EncVarint(|s|) + (s + rest));
    VarintRoundTrip(|s|, s + rest);
    assert data[1..] == EncVarint(|s|) + (s + rest);
    var n := |EncVarint(|s|)|;
    assert data[1..][n..n + |s|] == s;
  }

  lemma NextFloat(tag: Byte, v: nat, rest: seq<Byte>, base: nat, schema: Schema)
    requires 8 < tag < 128 && tag % 8 == 1 && tag / 8 in schema && schema[tag / 8] == 1 && v < TWO64
    ensures NextField([tag] + LittleEndian(v, 8) + rest, base, schema) == Ok((Fixed64Field(tag / 8, v), 9))
  {
    hide DecVarint, Skip, LittleEndian, FromLittleEndian, Bits.Pow2;
    var data := [tag] + LittleEndian(v, 8) + rest;
    assert data == [tag] + (LittleEndian(v, 8) + rest);
    TagByte(tag, LittleEndian(v, 8) + rest);
    assert data[1..] == LittleEndian(v, 8) + rest;
    assert data[1..][..8] == LittleEndian(v, 8);
    Bits.Pow2At64();
    LittleEndianRoundTrip(v, 8);
  }

  lemma NextInt(tag: Byte, v: nat, rest: seq<Byte>, base: nat, schema: Schema)
    requires 8 < tag < 128 && tag % 8 == 0 && tag / 8 in schema && schema[tag / 8] == 0 && v < TWO64
    ensures NextField([tag] + EncVarint(v) + rest, base, schema) ==
            Ok((VarintField(tag / 8, v), 1 + |EncVarint(v)|))
  {
    hide DecVarint, Skip;
    var data := [tag] + EncVarint(v) + rest;
    assert data == [tag] + (EncVarint(v) + rest);
    TagByte(tag, EncVarint(v) + rest);
    assert data[1..] == EncVarint(v) + rest;
    VarintRoundTrip(v, rest);
  }

  /** The message with only the fields below k stored. */
  function Below(m: Stat, k: nat): Stat {
    var z := NormalStat(m);
    Stat(if k > 1 then z.podName else [],
         if k > 2 then z.averageConcurrentRequests else 0,
         if k > 3 then z.averageProxiedConcurrentRequests else 0,
         if k > 4 then z.requestCount else 0,
         if k > 5 then z.proxiedRequestCount else 0,
         if k > 6 then z.processUptime else 0,
         if k > 7 then z.timestamp else 0)
  }

  lemma DecodeEmpty(base: nat, msg: Message)
    ensures Decode([], base, msg) == Ok(msg)
  {
  }

  /** Decoding a message whose first field is f. */
  lemma DecodeFirst(head: seq<Byte>, rest: seq<Byte>, base: nat, msg: Message, f: Field, msg': Message)
    requires head != [] && NextField(head + rest, base, msg.Fields()) == Ok((f, |head|)) && Apply(msg, f) == Ok(msg')
    ensures Decode(head + rest, base, msg) == Decode(rest, base + |head|, msg')
  {
    hide NextField, Apply;
    assert (head + rest)[|head|..] == rest;
  }

  lemma StatFieldDecodes(m: Stat, k: nat, rest: seq<Byte>, base: nat)
    requires StatOk(m) && 1 <= k <= 7 && base + |EncStatField(m, k)| + |rest| < TWO63
    ensures Decode(EncStatField(m, k) + rest, base, StatMsg(Below(m, k))) ==
            Decode(rest, base + |EncStatField(m, k)|, StatMsg(Below(m, k + 1)))
  {
    hide Decode, NextField, Skip, DecVarint;
    var head := EncStatField(m, k);
    var msg, msg' := StatMsg(Below(m, k)), StatMsg(Below(m, k + 1));
    if head == [] {
      assert head + rest == rest;
    } else if k == 1 {
      NextBytes(0x0a, m.podName, rest, base, msg.Fields());
      DecodeFirst(head, rest, base, msg, BytesField(1, m.podName), msg');
    } else if k == 7 {
      NextInt(0x38, ToUint64(m.timestamp), rest, base, msg.Fields());
      DecodeFirst(head, rest, base, msg, VarintField(7, ToUint64(m.timestamp)), msg');
    } else {
      FloatFieldDecodes(m, k, rest, base);
    }
  }

  /** Field k of a Stat, for the five fixed64 fields. */
  function FloatOf(m: Stat, k: nat): nat {
    match k
    case 2 => m.averageConcurrentRequests
    case 3 => m.averageProxiedConcurrentRequests
    case 4 => m.requestCount
    case 5 => m.proxiedRequestCount
    case _ => m.processUptime
  }

  lemma FloatFieldDecodes(m: Stat, k: nat, rest: seq<Byte>, base: nat)
    requires StatOk(m) && 2 <= k <= 6 && EncStatField(m, k) != []
    ensures Decode(EncStatField(m, k) + rest, base, StatMsg(Below(m, k))) ==
            Decode(rest, base + |EncStatField(m, k)|, StatMsg(Below(m, k + 1)))
  {
    hide Decode, NextField;
    var v := FloatOf(m, k);
    var tag: Byte := 8 * k + 1;
    var head := EncStatField(m, k);
    assert head == [tag] + LittleEndian(v, 8);
    NextFloat(tag, v, rest, base, StatMsg(Below(m, k)).Fields());
    DecodeFirst(head, rest, base, StatMsg(Below(m, k)), Fixed64Field(k, v), StatMsg(Below(m, k + 1)));
  }

  lemma {:induction false} StatTailDecodes(m: Stat, k: nat, base: nat)
    requires StatOk(m) && 1 <= k <= 8 && base + |EncStatFrom(m, k)| < TWO63
    ensures Decode(EncStatFrom(m, k), base, StatMsg(Below(m, k))) == Ok(StatMsg(NormalStat(m)))
    decreases 8 - k
  {
    hide Decode;
    if k == 8 {
      DecodeEmpty(base, StatMsg(NormalStat(m)));
    } else {
      StatFieldDecodes(m, k, EncStatFrom(m, k + 1), base);
      StatTailDecodes(m, k + 1, base + |EncStatField(m, k)|);
    }
  }

  /** Stat round trip: the message comes back, up to the sign of zero. */
  lemma StatRoundTrip(m: Stat)
    requires StatOk(m) && |EncStat(m)| < TWO63
    ensures Decode(EncStat(m), 0, StatMsg(EMPTY_STAT)) == Ok(StatMsg(NormalStat(m)))
  {
    StatTailDecodes(m, 1, 0);
  }

  lemma StringDecodes(tag: Byte, s: seq<Byte>, rest: seq<Byte>, base: nat, w: WireStatMessage, w': WireStatMessage)
    requires tag == 0x0a || tag == 0x12
    requires base + |EncString(tag, s)| + |rest| < TWO63
    requires w' == if tag == 0x0a then w.(namespace := s) else w.(name := s)
    requires s == [] ==> w' == w
    ensures Decode(EncString(tag, s) + rest, base, WireMsg(w)) == Decode(rest, base + |EncString(tag, s)|, WireMsg(w'))
  {
    hide Decode, NextField, Skip, DecVarint;
    if s == [] {
      assert EncString(tag, s) + rest == rest;
    } else {
      NextBytes(tag, s, rest, base, WireMsg(w).Fields());
      DecodeFirst(EncString(tag, s), rest, base, WireMsg(w), BytesField(tag / 8, s), WireMsg(w'));
    }
  }

  /** WireStatMessage round trip, with a nil, empty or full nested Stat. */
  lemma WireRoundTrip(m: WireStatMessage)
    requires WireOk(m) && |EncWire(m)| < TWO63
    ensures Decode(EncWire(m), 0, WireMsg(EMPTY_WIRE)) == Ok(WireMsg(NormalWire(m)))
  {
    hide Decode, NextField, Skip, DecVarint;
    var tail := EncOptionalStat(m.stat);
    var w1 := WireStatMessage(m.namespace, [], None);
    var w2 := WireStatMessage(m.namespace, m.name, None);
    var b1 := |EncString(0x0a, m.namespace)|;
    var b2 := b1 + |EncString(0x12, m.name)|;
    StringDecodes(0x0a, m.namespace, EncString(0x12, m.name) + tail, 0, EMPTY_WIRE, w1);
    StringDecodes(0x12, m.name, tail, b1, w1, w2);
    if m.stat.None? {
      DecodeEmpty(b2, WireMsg(w2));
    } else {
      var inner := EncStat(m.stat.value);
      StatRoundTrip(m.stat.value);
      NextBytes(0x1a, inner, [], b2, WireMsg(w2).Fields());
      assert tail + [] == tail;
      DecodeFirst(tail, [], b2, WireMsg(w2), BytesField(3, inner), WireMsg(NormalWire(m)));
      DecodeEmpty(b2 + |tail|, WireMsg(NormalWire(m)));
    }
  }

  lemma ApplyListItem(done: seq<WireStatMessage>, inner: seq<Byte>, w: WireStatMessage)
    requires Decode(inner, 0, WireMsg(EMPTY_WIRE)) == Ok(WireMsg(w))
    ensures Apply(ListMsg(done), BytesField(1, inner)) == Ok(ListMsg(done + [w]))
  {
    hide Decode;
  }

  lemma {:induction false} ListDecodes(done: seq<WireStatMessage>, ms: seq<WireStatMessage>, base: nat)
    requires ListOk(ms) && base + |EncList(ms)| < TWO63
    ensures Decode(EncList(ms), base, ListMsg(done)) == Ok(ListMsg(done + NormalList(ms)))
    decreases |ms|
  {
    hide Decode, Apply, NextField, Skip, DecVarint, EncWire, EncVarint;
    if ms == [] {
      DecodeEmpty(base, ListMsg(done));
      assert done + NormalList(ms) == done;
    } else {
      var inner := EncWire(ms[0]);
      var head, rest := EncBytes(0x0a, inner), EncList(ms[1..]);
      var done' := done + [NormalWire(ms[0])];
      WireRoundTrip(ms[0]);
      NextBytes(0x0a, inner, rest, base, ListMsg(done).Fields());
      ApplyListItem(done, inner, NormalWire(ms[0]));
      DecodeFirst(head, rest, base, ListMsg(done), BytesField(1, inner), ListMsg(done'));
      ListDecodes(done', ms[1..], base + |head|);
      assert done' + NormalList(ms[1..]) == done + NormalList(ms);
    }
  }

  /** WireStatMessages round trip, for lists of any length. */
  lemma ListRoundTrip(ms: seq<WireStatMessage>)
    requires ListOk(ms) && |EncList(ms)| < TWO63
    ensures Decode(EncList(ms), 0, ListMsg([])) == Ok(ListMsg(NormalList(ms)))
  {
    ListDecodes([], ms, 0);
    assert [] + NormalList(ms) == NormalList(ms);
  }
}

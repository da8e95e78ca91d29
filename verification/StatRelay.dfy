/** Sending on what was received: whatever byte string a decoder accepts, the message it
    yields can be encoded, in no more bytes, and the encoding decodes to the same message. */
module StatRelay {
  import opened Common
  import opened StatWire
  import opened StatCodec
  import opened StatMarshal
  import StatUnmarshal
  import Bits

  // ----- varints are written as short as can be

  lemma {:induction false} SovMono(a: nat, b: nat)
    requires a <= b
    ensures |EncVarint(a)| <= |EncVarint(b)|
    decreases b
  {
    if b >= 128 {
      SovMono(a / 128, b / 128);
    }
  }

  lemma SovNext(x: nat)
    ensures |EncVarint(x + 1)| <= |EncVarint(x)| + 1
  {
    if x > 0 {
      SovMono(x + 1, 128 * x);
      assert (128 * x) / 128 == x;
    }
  }

  /** The length of a sum is at most the sum of the lengths. */
  lemma {:induction false} SovAdd(a: nat, b: nat)
    ensures |EncVarint(a + b)| <= |EncVarint(a)| + |EncVarint(b)|
    decreases a + b
  {
    if a + b >= 128 {
      var x, y := a / 128, b / 128;
      assert (a + b) / 128 <= x + (y + 1);
      if a >= 128 {
        SovMono((a + b) / 128, x + (y + 1));
        SovAddHalf(a, b, x, y);
      } else {
        SovMono((a + b) / 128, y + 1);
        SovNext(y);
      }
    }
  }

  lemma {:induction false} SovAddHalf(a: nat, b: nat, x: nat, y: nat)
    requires a >= 128 && x == a / 128 && y == b / 128
    ensures |EncVarint(x + (y + 1))| <= |EncVarint(a)| + |EncVarint(b)| - 1
    decreases a + b, 0
  {
    if b >= 128 {
      SovAdd(x, y + 1);
      SovNext(y);
    } else {
      SovNext(x);
    }
  }

  lemma {:induction false} SovBound(v: nat, n: nat)
    requires n >= 1 && v < Bits.Pow2(7 * n)
    ensures |EncVarint(v)| <= n
  {
    Bits.Pow2At64();
    if n > 1 && v >= 128 {
      Bits.Pow2Add(7 * n - 7, 7);
      SovBound(v / 128, n - 1);
    }
  }

  lemma {:induction false} DecVarintBound(data: seq<Byte>, shift: nat, acc: nat)
    requires DecVarint(data, shift, acc).Ok? && acc < Bits.Pow2(shift)
    ensures var (v, n) := DecVarint(data, shift, acc).value; v < Bits.Pow2(shift + 7 * n)
    decreases |data|
  {
    hide Bits.Pow2;
    var p := Bits.Pow2(shift);
    var sum := acc + (data[0] % 128) * p;
    Bits.Pow2At64();
    Bits.Pow2Add(shift, 7);
    SplitSeven(data[0] % 128, p, acc);
    assert sum % TWO64 <= sum;
    if data[0] >= 128 {
      DecVarintBound(data[1..], shift + 7, sum % TWO64);
    }
  }

  /** A varint that is read took at least as many bytes as it is written in. */
  lemma VarintShortest(data: seq<Byte>)
    requires Varint(data).Ok?
    ensures |EncVarint(Varint(data).value.0)| <= Varint(data).value.1
  {
    hide DecVarint, EncVarint;
    assert Bits.Pow2(0) == 1;
    DecVarintBound(data, 0, 0);
    var (v, n) := Varint(data).value;
    SovBound(v, n);
  }

  // ----- fields

  /** The bytes a field is written in. */
  function CanonLen(f: Field): nat {
    match f
    case VarintField(_, v) => 1 + |EncVarint(v)|
    case Fixed64Field(_, _) => 9
    case BytesField(_, payload) => 1 + |EncVarint(|payload|)| + |payload|
    case UnknownField => 0
  }

  lemma PayloadShortest(data: seq<Byte>, base: nat, num: nat, wireType: nat)
    requires Payload(data, base, num, wireType).Ok?
    ensures CanonLen(Payload(data, base, num, wireType).value.0) <= 1 + Payload(data, base, num, wireType).value.1
  {
    hide DecVarint, EncVarint, FromLittleEndian;
    if wireType != 1 {
      VarintShortest(data);
    }
  }

  lemma FieldShortest(data: seq<Byte>, base: nat, schema: Schema)
    requires data != [] && NextField(data, base, schema).Ok?
    ensures CanonLen(NextField(data, base, schema).value.0) <= NextField(data, base, schema).value.1
  {
    hide DecVarint, EncVarint, Payload, Skip;
    var (wire, k) := Varint(data).value;
    if FieldNumber(wire) in schema {
      PayloadShortest(data[k..], base + k, FieldNumber(wire), wire % 8);
    }
  }

  // ----- messages

  ghost predicate MessageOk(m: Message) {
    match m
    case StatMsg(s) => StatOk(s)
    case WireMsg(w) => WireOk(w)
    case ListMsg(ms) => ListOk(ms)
  }

  function Size(m: Message): nat
    requires MessageOk(m)
  {
    match m
    case StatMsg(s) => SizeStat(s)
    case WireMsg(w) => SizeWire(w)
    case ListMsg(ms) => SizeList(ms)
  }

  lemma SetFieldNoLonger(s: Stat, f: Field)
    requires StatOk(s) && FieldOk(f)
    ensures StatOk(SetStatField(s, f)) && SizeStat(SetStatField(s, f)) <= SizeStat(s) + CanonLen(f)
  {
    hide Sov, EncVarint;
    match f
    case BytesField(_, payload) => SovIsLength(|payload|);
    case VarintField(_, v) => SovIsLength(v);
    case _ =>
  }

  lemma {:induction false} SizeListMore(ms: seq<WireStatMessage>, w: WireStatMessage)
    requires ListOk(ms) && WireOk(w)
    ensures ListOk(ms + [w]) && SizeList(ms + [w]) == SizeList(ms) + SizeBytes(SizeWire(w))
  {
    hide SizeBytes, SizeWire;
    if ms == [] {
      assert ms + [w] == [w];
    } else {
      assert (ms + [w])[1..] == ms[1..] + [w];
      SizeListMore(ms[1..], w);
    }
  }

  /** Framing a nested message that grew by at most extra bytes. */
  lemma FrameNoLonger(before: nat, extra: nat, after: nat)
    requires after <= before + extra
    ensures SizeBytes(after) <= SizeBytes(before) + (1 + |EncVarint(extra)| + extra)
    ensures before == 0 ==> SizeBytes(after) <= 1 + |EncVarint(extra)| + extra
  {
    hide Sov, EncVarint;
    SovIsLength(before);
    SovIsLength(after);
    SovMono(after, before + extra);
    SovAdd(before, extra);
  }

  lemma WireNameNoLonger(w: WireStatMessage, payload: seq<Byte>, num: nat)
    requires WireOk(w) && (num == 1 || num == 2)
    ensures var w' := if num == 1 then w.(namespace := payload) else w.(name := payload);
      WireOk(w') && SizeWire(w') <= SizeWire(w) + (1 + |EncVarint(|payload|)| + |payload|)
  {
    hide Sov, EncVarint, SizeStat;
    SovIsLength(|payload|);
  }

  lemma WireStatNoLonger(w: WireStatMessage, stat: Stat, extra: nat)
    requires WireOk(w) && StatOk(stat)
    requires SizeStat(stat) <= SizeStat(if w.stat.None? then EMPTY_STAT else w.stat.value) + extra
    ensures var w' := w.(stat := Some(stat));
      WireOk(w') && SizeWire(w') <= SizeWire(w) + (1 + |EncVarint(extra)| + extra)
  {
    hide Sov, EncVarint, SizeStat, SizeBytes, SizeString;
    assert SizeStat(EMPTY_STAT) == 0 by { EmptySize(); }
    FrameNoLonger(if w.stat.None? then 0 else SizeStat(w.stat.value), extra, SizeStat(stat));
  }

  lemma EmptySize()
    ensures SizeStat(EMPTY_STAT) == 0 && SizeWire(EMPTY_WIRE) == 0
  {
  }

  /** Storing a field keeps the message encodable and adds at most the field's own bytes. */
  lemma {:induction false} ApplyNoLonger(msg: Message, f: Field)
    requires MessageOk(msg) && FieldOk(f) && Apply(msg, f).Ok?
    ensures MessageOk(Apply(msg, f).value) && Size(Apply(msg, f).value) <= Size(msg) + CanonLen(f)
    decreases msg.Rank(), FieldLen(f), 0
  {
    hide Decode, EncVarint, Sov, SizeStat, SizeWire, SizeBytes, SizeList;
    match msg
    case StatMsg(s) =>
      if !f.UnknownField? {
        SetFieldNoLonger(s, f);
      }
    case WireMsg(w) =>
      if f.BytesField? {
        if f.num == 1 || f.num == 2 {
          WireNameNoLonger(w, f.payload, f.num);
        } else {
          var inner := StatMsg(if w.stat.None? then EMPTY_STAT else w.stat.value);
          DecodeNoLonger(f.payload, 0, inner);
          WireStatNoLonger(w, Decode(f.payload, 0, inner).value.stat, |f.payload|);
        }
      }
    case ListMsg(ms) =>
      if f.BytesField? {
        DecodeNoLonger(f.payload, 0, WireMsg(EMPTY_WIRE));
        var w := Decode(f.payload, 0, WireMsg(EMPTY_WIRE)).value.wire;
        EmptySize();
        FrameNoLonger(0, |f.payload|, SizeWire(w));
        SizeListMore(ms, w);
      }
  }

  /** Decoding any bytes into an encodable message leaves it encodable, and longer by at
      most those bytes. */
  lemma {:induction false} DecodeNoLonger(data: seq<Byte>, base: nat, msg: Message)
    requires MessageOk(msg) && Decode(data, base, msg).Ok?
    ensures MessageOk(Decode(data, base, msg).value) && Size(Decode(data, base, msg).value) <= Size(msg) + |data|
    decreases msg.Rank(), |data|, 1
  {
    hide NextField, Apply, Size, MessageOk, CanonLen;
    if data != [] {
      var (f, n) := NextField(data, base, msg.Fields()).value;
      FieldShortest(data, base, msg.Fields());
      ApplyNoLonger(msg, f);
      var msg' := Apply(msg, f).value;
      DecodeNoLonger(data[n..], base + n, msg');
    }
  }

  // ----- round trip from the wire

  function Encoded(m: Message): seq<Byte>
    requires MessageOk(m)
  {
    match m
    case StatMsg(s) => EncStat(s)
    case WireMsg(w) => EncWire(w)
    case ListMsg(ms) => EncList(ms)
  }

  function Normal(m: Message): Message {
    match m
    case StatMsg(s) => StatMsg(NormalStat(s))
    case WireMsg(w) => WireMsg(NormalWire(w))
    case ListMsg(ms) => ListMsg(NormalList(ms))
  }

  function Fresh(m: Message): (r: Message)
    ensures r.Rank() == m.Rank()
  {
    match m case StatMsg(_) => StatMsg(EMPTY_STAT) case WireMsg(_) => WireMsg(EMPTY_WIRE) case ListMsg(_) => ListMsg([])
  }

  lemma SizeIsLength(m: Message)
    requires MessageOk(m)
    ensures Size(m) == |Encoded(m)|
  {
    hide SizeStat, SizeWire, SizeList, EncStat, EncWire, EncList;
    match m
    case StatMsg(s) => StatSizeIsLength(s);
    case WireMsg(w) => WireSizeIsLength(w);
    case ListMsg(ms) => ListSizeIsLength(ms);
  }

  lemma RoundTrip(m: Message)
    requires MessageOk(m) && |Encoded(m)| < TWO63
    ensures Decode(Encoded(m), 0, Fresh(m)) == Ok(Normal(m))
  {
    hide Decode, EncStat, EncWire, EncList, NormalStat, NormalWire, NormalList;
    match m
    case StatMsg(s) => StatRoundTrip(s);
    case WireMsg(w) => WireRoundTrip(w);
    case ListMsg(ms) => ListRoundTrip(ms);
  }

  /** The normal form has the same encoding. */
  lemma StatNormalSame(s: Stat)
    requires StatOk(s)
    ensures StatOk(NormalStat(s)) && EncStat(NormalStat(s)) == EncStat(s)
  {
    hide EncString, LittleEndian, EncInt, EncStat, EncStatFrom;
    StatFields(s);
    StatFields(NormalStat(s));
  }

  lemma WireNormalSame(w: WireStatMessage)
    requires WireOk(w)
    ensures WireOk(NormalWire(w)) && EncWire(NormalWire(w)) == EncWire(w)
  {
    hide EncStat, NormalStat, StatOk;
    if w.stat.Some? {
      StatNormalSame(w.stat.value);
    }
  }

  lemma {:induction false} ListNormalSame(ms: seq<WireStatMessage>)
    requires ListOk(ms)
    ensures ListOk(NormalList(ms)) && EncList(NormalList(ms)) == EncList(ms)
  {
    hide EncWire, NormalWire, WireOk, EncBytes;
    if ms != [] {
      WireNormalSame(ms[0]);
      ListNormalSame(ms[1..]);
      assert NormalList(ms) == [NormalWire(ms[0])] + NormalList(ms[1..]);
    }
  }

  lemma NormalSame(m: Message)
    requires MessageOk(m)
    ensures MessageOk(Normal(m)) && Encoded(Normal(m)) == Encoded(m)
  {
    hide EncStat, EncWire, EncList, NormalStat, NormalWire, NormalList;
    match m
    case StatMsg(s) => StatNormalSame(s);
    case WireMsg(w) => WireNormalSame(w);
    case ListMsg(ms) => ListNormalSame(ms);
  }

  /** Every byte string a decoder accepts, unknown fields, repeated fields and overlong
      varints included, decodes to a message that can be encoded, in no more bytes; that
      encoding decodes to the same message up to the sign of zero, and encoding once more
      changes nothing. */
  lemma ReencodeIsNormal(data: seq<Byte>, msg: Message)
    requires |data| < TWO63 && msg == Fresh(msg) && Decode(data, 0, msg).Ok?
    ensures var m := Decode(data, 0, msg).value;
      && MessageOk(m) && |Encoded(m)| <= |data|
      && Decode(Encoded(m), 0, msg) == Ok(Normal(m))
      && MessageOk(Normal(m)) && Encoded(Normal(m)) == Encoded(m)
  {
    hide Decode, Encoded, Normal, Size;
    assert MessageOk(msg) && Size(msg) == 0 by { FreshSize(msg); }
    DecodeNoLonger(data, 0, msg);
    var m := Decode(data, 0, msg).value;
    SizeIsLength(m);
    SameFresh(m, msg);
    RoundTrip(m);
    NormalSame(m);
  }

  lemma FreshSize(msg: Message)
    requires msg == Fresh(msg)
    ensures MessageOk(msg) && Size(msg) == 0
  {
    EmptySize();
  }

  lemma SameFresh(m: Message, msg: Message)
    requires m.Rank() == msg.Rank()
    ensures Fresh(m) == Fresh(msg)
  {
  }

  /** Receiving a list and sending it on, through both imperative halves. */
  method Relay(data: seq<Byte>) returns (got: Result<Message>, sent: seq<Byte>, again: Result<Message>)
    requires |data| < TWO63
    ensures got == Decode(data, 0, ListMsg([]))
    ensures got.Ok? ==> |sent| <= |data| && again == Ok(Normal(got.value))
    ensures got.Err? ==> sent == [] && again == got
  {
    hide Decode, EncList, Normal;
    got := StatUnmarshal.Unmarshal(data, ListMsg([]));
    if got.Err? {
      return got, [], got;
    }
    ReencodeIsNormal(data, ListMsg([]));
    sent := MarshalList(got.value.messages);
    again := StatUnmarshal.Unmarshal(sent, ListMsg([]));
  }
}

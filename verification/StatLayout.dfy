/** What the stat messages look like on the wire, field by field, and what a decoder refuses:
    tags and bytes written out, independently of how the encoder and decoder are defined. */
module StatLayout {
  import opened Common
  import opened StatWire
  import opened StatCodec
  import StatMarshal
  import Bits

  const NEGATIVE_ZERO: nat := 0x8000_0000_0000_0000

  // ----- what comes back

  /** A float comes back bit by bit, but for the negative zero, which comes back as zero. */
  predicate SameFloat(got: nat, sent: nat) {
    got == if sent == 0x8000_0000_0000_0000 then 0 else sent
  }

  predicate SameStat(got: Stat, sent: Stat) {
    && got.podName == sent.podName && got.timestamp == sent.timestamp
    && SameFloat(got.averageConcurrentRequests, sent.averageConcurrentRequests)
    && SameFloat(got.averageProxiedConcurrentRequests, sent.averageProxiedConcurrentRequests)
    && SameFloat(got.requestCount, sent.requestCount)
    && SameFloat(got.proxiedRequestCount, sent.proxiedRequestCount)
    && SameFloat(got.processUptime, sent.processUptime)
  }

  predicate SameWire(got: WireStatMessage, sent: WireStatMessage) {
    && got.namespace == sent.namespace && got.name == sent.name
    && (got.stat.None? <==> sent.stat.None?)
    && (got.stat.Some? && sent.stat.Some? ==> SameStat(got.stat.value, sent.stat.value))
  }

  /** The normal form differs from the message in the sign of zeros only. */
  lemma NormalIsSignOfZero(m: WireStatMessage)
    ensures SameWire(NormalWire(m), m)
    ensures m.stat.Some? ==> SameStat(NormalStat(m.stat.value), m.stat.value)
  {
  }

  /** Every field of every message of a list comes back. */
  lemma ListComesBack(ms: seq<WireStatMessage>)
    requires ListOk(ms) && |EncList(ms)| < TWO63
    ensures var r := Decode(EncList(ms), 0, ListMsg([]));
      && r.Ok? && r.value.ListMsg? && |r.value.messages| == |ms|
      && forall i :: 0 <= i < |ms| ==> SameWire(r.value.messages[i], ms[i])
  {
    hide Decode, EncList, NormalWire, SameWire;
    ListRoundTrip(ms);
    forall i | 0 <= i < |ms|
      ensures SameWire(NormalList(ms)[i], ms[i])
    {
      NormalIsSignOfZero(ms[i]);
    }
  }

  lemma StatComesBack(m: Stat)
    requires StatOk(m) && |EncStat(m)| < TWO63
    ensures var r := Decode(EncStat(m), 0, StatMsg(EMPTY_STAT));
      r.Ok? && r.value.StatMsg? && SameStat(r.value.stat, m)
  {
    hide Decode, EncStat, NormalStat, SameStat;
    StatRoundTrip(m);
    NormalIsSignOfZero(WireStatMessage([], [], Some(m)));
  }

  lemma WireComesBack(m: WireStatMessage)
    requires WireOk(m) && |EncWire(m)| < TWO63
    ensures var r := Decode(EncWire(m), 0, WireMsg(EMPTY_WIRE));
      r.Ok? && r.value.WireMsg? && SameWire(r.value.wire, m)
  {
    hide Decode, EncWire, NormalWire, SameWire;
    WireRoundTrip(m);
    NormalIsSignOfZero(m);
  }

  // ----- numbers

  /** Taking a places off and then the rest of k is taking k off. */
  lemma PlacesOff(v: nat, a: nat, k: nat)
    requires a <= k
    ensures (v / Bits.Pow2(a)) / Bits.Pow2(k - a) == v / Bits.Pow2(k)
  {
    hide Bits.Pow2;
    Bits.Pow2Add(a, k - a);
    Bits.DivideTwice(v, Bits.Pow2(a), Bits.Pow2(k - a));
  }

  /** Byte k of a fixed 64-bit value counts 256^k: the least significant comes first. */
  lemma {:induction false} LittleEndianBytes(v: nat, n: nat, k: nat)
    requires k < n
    ensures LittleEndian(v, n)[k] == v / Bits.Pow2(8 * k) % 256
  {
    if k > 0 {
      hide Bits.Pow2;
      LittleEndianBytes(v / 256, n - 1, k - 1);
      Bits.Pow2At64();
      PlacesOff(v, 8, 8 * k);
    }
  }

  /** Byte k of a varint holds the seven bits that count 128^k, and the high bit on all but
      the last. */
  lemma {:induction false} VarintBytes(v: nat, k: nat)
    requires k < |EncVarint(v)|
    ensures EncVarint(v)[k] == v / Bits.Pow2(7 * k) % 128 + (if k + 1 < |EncVarint(v)| then 128 else 0)
  {
    if k > 0 {
      hide Bits.Pow2;
      var rest := EncVarint(v / 128);
      assert EncVarint(v) == [v % 128 + 128] + rest;
      VarintBytes(v / 128, k - 1);
      Bits.Pow2At64();
      PlacesOff(v, 7, 7 * k);
    }
  }

  // ----- one field at a time

  /** The message with only field k. */
  function Single(m: Stat, k: nat): Stat {
    match k
    case 1 => EMPTY_STAT.(podName := m.podName)
    case 2 => EMPTY_STAT.(averageConcurrentRequests := m.averageConcurrentRequests)
    case 3 => EMPTY_STAT.(averageProxiedConcurrentRequests := m.averageProxiedConcurrentRequests)
    case 4 => EMPTY_STAT.(requestCount := m.requestCount)
    case 5 => EMPTY_STAT.(proxiedRequestCount := m.proxiedRequestCount)
    case 6 => EMPTY_STAT.(processUptime := m.processUptime)
    case _ => EMPTY_STAT.(timestamp := m.timestamp)
  }

  lemma {:induction false} OnlyFrom(m: Stat, j: nat, k: nat)
    requires StatOk(m) && 1 <= j <= 8 && 1 <= k <= 7
    requires forall i :: j <= i <= 7 && i != k ==> EncStatField(m, i) == []
    ensures EncStatFrom(m, j) == if j <= k then EncStatField(m, k) else []
    decreases 8 - j
  {
    hide EncStatField;
    if j <= 7 {
      OnlyFrom(m, j + 1, k);
    }
  }

  lemma SingleFields(m: Stat, k: nat, i: nat)
    requires StatOk(m) && 1 <= k <= 7 && 1 <= i <= 7
    ensures StatOk(Single(m, k))
    ensures EncStatField(Single(m, k), i) == if i == k then EncStatField(m, k) else []
  {
    hide EncVarint, LittleEndian, EncBytes;
  }

  /** A message with only field k is that field's bytes. */
  lemma SingleOnWire(m: Stat, k: nat)
    requires StatOk(m) && 1 <= k <= 7
    ensures StatOk(Single(m, k)) && EncStat(Single(m, k)) == EncStatField(m, k)
  {
    hide EncStatField, Single, EncStatFrom;
    SingleFields(m, k, 1);
    forall i | 1 <= i <= 7 && i != k
      ensures EncStatField(Single(m, k), i) == []
    {
      SingleFields(m, k, i);
    }
    SingleFields(m, k, k);
    OnlyFrom(Single(m, k), 1, k);
  }

  /** The pod name is field 1, counted bytes. */
  lemma PodNameOnWire(s: seq<Byte>)
    requires s != []
    ensures EncStat(EMPTY_STAT.(podName := s)) == [0x0a] + EncVarint(|s|) + s
  {
    hide EncVarint, EncStat;
    SingleOnWire(EMPTY_STAT.(podName := s), 1);
  }

  /** The five floats are fields 2 to 6, each eight little-endian bytes. */
  lemma FloatsOnWire(f: nat)
    requires 0 < f < TWO64 && f != 0x8000_0000_0000_0000
    ensures EncStat(EMPTY_STAT.(averageConcurrentRequests := f)) == [0x11] + LittleEndian(f, 8)
    ensures EncStat(EMPTY_STAT.(averageProxiedConcurrentRequests := f)) == [0x19] + LittleEndian(f, 8)
    ensures EncStat(EMPTY_STAT.(requestCount := f)) == [0x21] + LittleEndian(f, 8)
    ensures EncStat(EMPTY_STAT.(proxiedRequestCount := f)) == [0x29] + LittleEndian(f, 8)
    ensures EncStat(EMPTY_STAT.(processUptime := f)) == [0x31] + LittleEndian(f, 8)
  {
    hide LittleEndian, EncStat;
    SingleOnWire(EMPTY_STAT.(averageConcurrentRequests := f), 2);
    SingleOnWire(EMPTY_STAT.(averageProxiedConcurrentRequests := f), 3);
    SingleOnWire(EMPTY_STAT.(requestCount := f), 4);
    SingleOnWire(EMPTY_STAT.(proxiedRequestCount := f), 5);
    SingleOnWire(EMPTY_STAT.(processUptime := f), 6);
  }

  /** The timestamp is field 7, a varint of its two's complement. */
  lemma TimestampOnWire(t: int)
    requires t != 0 && -0x8000_0000_0000_0000 <= t < 0x8000_0000_0000_0000
    ensures EncStat(EMPTY_STAT.(timestamp := t))
         == [0x38] + EncVarint(if t < 0 then t + 0x1_0000_0000_0000_0000 else t)
  {
    hide EncVarint, EncStat;
    SingleOnWire(EMPTY_STAT.(timestamp := t), 7);
  }

  /** A Stat is its fields one after the other, in order of their numbers; a zero writes nothing. */
  lemma StatOnWire(m: Stat)
    requires StatOk(m)
    ensures EncStat(m) ==
            EncStat(EMPTY_STAT.(podName := m.podName))
            + (EncStat(EMPTY_STAT.(averageConcurrentRequests := m.averageConcurrentRequests))
            + (EncStat(EMPTY_STAT.(averageProxiedConcurrentRequests := m.averageProxiedConcurrentRequests))
            + (EncStat(EMPTY_STAT.(requestCount := m.requestCount))
            + (EncStat(EMPTY_STAT.(proxiedRequestCount := m.proxiedRequestCount))
            + (EncStat(EMPTY_STAT.(processUptime := m.processUptime))
            + (EncStat(EMPTY_STAT.(timestamp := m.timestamp)) + []))))))
  {
    hide EncStat, EncStatField;
    StatMarshal.StatFields(m);
    SingleOnWire(m, 1);
    SingleOnWire(m, 2);
    SingleOnWire(m, 3);
    SingleOnWire(m, 4);
    SingleOnWire(m, 5);
    SingleOnWire(m, 6);
    SingleOnWire(m, 7);
  }

  /** Zeros of either sign, empty names and time zero write nothing. */
  lemma ZerosOnWire(m: Stat)
    requires || m == EMPTY_STAT
             || m == Stat([], NEGATIVE_ZERO, NEGATIVE_ZERO, NEGATIVE_ZERO, NEGATIVE_ZERO, NEGATIVE_ZERO, 0)
    ensures EncStat(m) == []
  {
    hide EncStatFrom;
    forall i | 1 <= i <= 7
      ensures EncStatField(m, i) == []
    {
    }
    OnlyFrom(m, 1, 1);
  }

  /** Namespace, name and stat are fields 1, 2 and 3 of a message, counted bytes in that order. */
  lemma WireOnWire(m: WireStatMessage)
    requires WireOk(m)
    ensures EncWire(m) ==
            (if m.namespace == [] then [] else [0x0a] + EncVarint(|m.namespace|) + m.namespace)
            + (if m.name == [] then [] else [0x12] + EncVarint(|m.name|) + m.name)
            + (if m.stat.None? then [] else [0x1a] + EncVarint(|EncStat(m.stat.value)|) + EncStat(m.stat.value))
  {
    hide EncVarint, EncStat;
  }

  /** Each message of a list is field 1, counted bytes, in list order. */
  lemma ListOnWire(ms: seq<WireStatMessage>, w: WireStatMessage)
    requires ListOk(ms) && WireOk(w)
    ensures EncList([]) == [] && ListOk(ms + [w])
    ensures EncList(ms + [w]) == EncList(ms) + ([0x0a] + EncVarint(|EncWire(w)|) + EncWire(w))
  {
    hide EncVarint, EncWire;
    assert ListOk([w]);
    StatMarshal.EncListSplit(ms, [w]);
    assert [w][1..] == [];
    assert EncList([w]) == EncBytes(0x0a, EncWire(w));
  }

  // ----- what is refused

  /** A varint reads if and only if one of its first ten bytes, all of them there, is below 128;
      with ten above it overflows, and otherwise the bytes run out. */
  lemma VarintReadsExactly(data: seq<Byte>)
    ensures Varint(data).Ok? <==> exists k :: 0 <= k < 10 && k < |data| && data[k] < 128
    ensures Varint(data).Err? ==> Varint(data).error == if |data| >= 10 then IntOverflow else UnexpectedEOF
  {
    ReadsFrom(data, 0, 0);
  }

  lemma {:induction false} ReadsFrom(data: seq<Byte>, n: nat, acc: nat)
    requires n <= 10
    ensures var r := DecVarint(data, 7 * n, acc);
      && (r.Ok? <==> exists k :: 0 <= k < 10 - n && k < |data| && data[k] < 128)
      && (r.Err? ==> r.error == if |data| >= 10 - n then IntOverflow else UnexpectedEOF)
    decreases 10 - n
  {
    hide Bits.Pow2;
    if n < 10 && data != [] && data[0] >= 128 {
      var acc' := (acc + (data[0] % 128) * Bits.Pow2(7 * n)) % TWO64;
      var rest := data[1..];
      ReadsFrom(rest, n + 1, acc');
      assert DecVarint(data, 7 * n, acc).Ok? <==> DecVarint(rest, 7 * n + 7, acc').Ok?;
      if k :| 0 <= k < 10 - n && k < |data| && data[k] < 128 {
        assert rest[k - 1] == data[k];
      }
      if k :| 0 <= k < 10 - (n + 1) && k < |rest| && rest[k] < 128 {
        assert data[k + 1] == rest[k];
      }
    }
  }

  /** A message does not begin with the end of a group or with field number zero. */
  lemma BadTagRefused(tag: Byte, rest: seq<Byte>, msg: Message)
    requires tag < 128
    ensures tag % 8 == 4 ==> Decode([tag] + rest, 0, msg) == Err(EndGroup)
    ensures tag < 8 && tag != 4 ==> Decode([tag] + rest, 0, msg) == Err(IllegalTag)
  {
    hide DecVarint, Skip, Payload, Apply;
    TagByte(tag, rest);
  }

  /** Field numbers are read as signed 32-bit integers, and only positive ones are taken. */
  lemma NegativeFieldRefused(wire: nat, rest: seq<Byte>, msg: Message)
    requires wire < TWO64 && wire % 8 != 4
    requires (wire / 8) % 0x1_0000_0000 == 0 || (wire / 8) % 0x1_0000_0000 >= 0x8000_0000
    ensures Decode(EncVarint(wire) + rest, 0, msg) == Err(IllegalTag)
  {
    hide DecVarint, EncVarint, Skip, Payload, Apply;
    VarintRoundTrip(wire, rest);
  }

  /** A known field must have its own wire type: 2 for Stat field 1, 1 for 2 to 6, 0 for 7;
      2 for all fields of the other messages. */
  lemma WrongWireTypeRefused(tag: Byte, rest: seq<Byte>, msg: Message)
    requires 8 <= tag < 128 && tag % 8 != 4
    ensures msg.StatMsg? && tag / 8 <= 7
            && tag % 8 != (if tag / 8 == 1 then 2 else if tag / 8 == 7 then 0 else 1) ==>
              Decode([tag] + rest, 0, msg) == Err(WrongWireType)
    ensures msg.WireMsg? && tag / 8 <= 3 && tag % 8 != 2 ==> Decode([tag] + rest, 0, msg) == Err(WrongWireType)
    ensures msg.ListMsg? && tag / 8 == 1 && tag % 8 != 2 ==> Decode([tag] + rest, 0, msg) == Err(WrongWireType)
  {
    hide DecVarint, Skip, Payload, Apply;
    TagByte(tag, rest);
  }

  /** An unknown field of wire type 6 or 7 is refused, and so is one whose group never ends. */
  lemma BadUnknownRefused(tag: Byte, rest: seq<Byte>, msg: Message)
    requires 64 <= tag < 128
    ensures tag % 8 >= 6 ==> Decode([tag] + rest, 0, msg) == Err(IllegalWireType)
    ensures tag % 8 == 3 && rest == [] ==> Decode([tag] + rest, 0, msg) == Err(UnexpectedEOF)
  {
    hide DecVarint, Payload, Apply;
    TagByte(tag, rest);
    assert Skip([], 1, 1) == Err(UnexpectedEOF);
    assert ([tag] + [])[1..] == [];
  }

  /** A first field whose payload is refused. */
  lemma PayloadRefused(tag: Byte, rest: seq<Byte>, msg: Message, error: Error)
    requires 8 <= tag < 128 && tag / 8 in msg.Fields() && msg.Fields()[tag / 8] == tag % 8 && tag % 8 != 4
    requires Payload(rest, 1, tag / 8, tag % 8) == Err(error)
    ensures Decode([tag] + rest, 0, msg) == Err(error)
  {
    hide DecVarint, Skip, Payload, Apply, Varint;
    TagByte(tag, rest);
    var data := [tag] + rest;
    assert data[1..] == rest && FieldNumber(tag) == tag / 8;
    assert NextField(data, 0, msg.Fields()) == Err(error);
  }

  /** Counted bytes that claim more than is left, or a length no slice can have, are refused. */
  lemma BadLengthRefused(len: nat, rest: seq<Byte>)
    requires |rest| < len < TWO64
    ensures Decode([0x0a] + (EncVarint(len) + rest), 0, ListMsg([])) ==
            Err(if len >= 0x8000_0000_0000_0000 || 1 + |EncVarint(len)| + len >= 0x8000_0000_0000_0000
                then InvalidLength else UnexpectedEOF)
  {
    hide DecVarint, Decode, EncVarint, FromLittleEndian;
    VarintRoundTrip(len, rest);
    PayloadRefused(0x0a, EncVarint(len) + rest, ListMsg([]), Payload(EncVarint(len) + rest, 1, 1, 2).error);
  }

  /** A float cut short is refused. */
  lemma ShortFloatRefused(rest: seq<Byte>)
    requires |rest| < 8
    ensures Decode([0x11] + rest, 0, StatMsg(EMPTY_STAT)) == Err(UnexpectedEOF)
  {
    hide DecVarint, Decode, FromLittleEndian;
    PayloadRefused(0x11, rest, StatMsg(EMPTY_STAT), UnexpectedEOF);
  }
}

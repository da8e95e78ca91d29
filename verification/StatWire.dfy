/** The Protocol Buffers wire layer used by the stat messages: base-128 varints,
    little-endian 64-bit values, tagged fields, and the skipping of unknown fields. */
module StatWire {
  import Bits

  type Byte = x: int | 0 <= x < 256

  const TWO63: nat := 0x8000_0000_0000_0000

  const TWO64: nat := 0x1_0000_0000_0000_0000

  datatype Error =
    | IntOverflow | UnexpectedEOF | InvalidLength          // the package's sentinel errors
    | EndGroup | IllegalTag | WrongWireType                // from Unmarshal
    | UnexpectedEndOfGroup | IllegalWireType               // from skipStat

  datatype Result<+T> = Ok(value: T) | Err(error: Error) {
    predicate IsFailure() { Err? }

    function PropagateFailure<U>(): Result<U>
      requires Err?
    {
      Err(error)
    }

    function Extract(): T
      requires Ok?
    {
      value
    }
  }

  // ----- varints

  /** What encodeVarintStat leaves in the buffer. */
  function EncVarint(v: nat): (bs: seq<Byte>)
    ensures |bs| > 0
  {
    if v < 128 then [v] else [v % 128 + 128] + EncVarint(v / 128)
  }

  /** The decoding loop: bits accumulate modulo 2^64, ten bytes at most. */
  function DecVarint(data: seq<Byte>, shift: nat, acc: nat): (r: Result<(nat, nat)>)
    ensures r.Ok? ==> 0 < r.value.1 <= |data|
    ensures r.Ok? ==> r.value.0 < TWO64
  {
    if shift >= 64 then Err(IntOverflow)
    else if data == [] then Err(UnexpectedEOF)
    else
      var b := data[0];
      var acc' := (acc + (b % 128) * Bits.Pow2(shift)) % TWO64;
      if b < 128 then Ok((acc', 1))
      else
        var (v, n) :- DecVarint(data[1..], shift + 7, acc');
        Ok((v, n + 1))
  }

  function Varint(data: seq<Byte>): (r: Result<(nat, nat)>)
    ensures r.Ok? ==> 0 < r.value.1 <= |data|
    ensures r.Ok? ==> r.value.0 < TWO64
  {
    DecVarint(data, 0, 0)
  }

  /** The byte `v&0x7f | 0x80`, as arithmetic. */
  lemma VarintByteIsArithmetic(v: nat)
    ensures Bits.Or(Bits.And(v, 0x7f), 0x80) == v % 128 + 128
  {
    hide Bits.Pow2, Bits.Or, Bits.And;
    Bits.Pow2At64();
    Bits.AndMask(v, 7);
    Bits.OrDisjoint(1, v % 128, 7);
  }

  /** The update `acc |= (b&0x7F) << shift` on 64-bit words, as arithmetic. */
  lemma VarintUpdateIsArithmetic(b: Byte, shift: nat, acc: nat)
    requires shift < 64 && acc < Bits.Pow2(shift)
    ensures Bits.Or(acc, (Bits.And(b, 0x7f) * Bits.Pow2(shift)) % TWO64) == (acc + (b % 128) * Bits.Pow2(shift)) % TWO64
  {
    hide Bits.Pow2, Bits.Or, Bits.And;
    var p, q, x := Bits.Pow2(shift), Bits.Pow2(64 - shift), b % 128;
    assert Bits.And(b, 0x7f) == x && p * q == TWO64 by {
      Bits.Pow2At64();
      Bits.AndMask(b, 7);
      Bits.Pow2Add(shift, 64 - shift);
    }
    ShiftModulo(x, p, q);
    Bits.OrDisjoint(x % q, acc, shift);
    BelowTop(x % q, acc, p, q);
    Bits.ModUnique(acc + x * p, TWO64, x / q, acc + (x % q) * p);
  }

  lemma BelowTop(v: nat, acc: nat, p: nat, q: nat)
    requires v < q && acc < p
    ensures acc + v * p < p * q
  {
    Bits.MulMono(v + 1, q, p);
    assert (v + 1) * p == v * p + p && q * p == p * q;
  }

  lemma ShiftModulo(x: nat, p: nat, q: nat)
    requires p > 0 && q > 0
    ensures (x * p) % (p * q) == (x % q) * p
    ensures x * p == (x / q) * (p * q) + (x % q) * p
  {
    var d, m := x / q, x % q;
    assert x == d * q + m;
    assert x * p == d * q * p + m * p;
    assert d * q * p == d * (p * q);
    Bits.MulMono(m + 1, q, p);
    assert (m + 1) * p == m * p + p && q * p == p * q;
    Bits.ModUnique(x * p, p * q, d, m * p);
  }

  /** Taking the low seven bits of v off, at weight p. */
  lemma SplitSeven(v: nat, p: nat, acc: nat)
    requires acc < p
    ensures acc + (v % 128) * p < 128 * p
    ensures acc + v * p == (acc + (v % 128) * p) + (v / 128) * (128 * p)
    ensures acc + (v % 128) * p <= acc + v * p
  {
    var x, y := v % 128, v / 128;
    assert v == 128 * y + x;
    assert v * p == y * (128 * p) + x * p;
    BelowTop(x, acc, p, 128);
    Bits.MulMono(0, y, 128 * p);
  }

  /** One turn of the decoding loop when nothing overflows. */
  lemma DecVarintTurn(data: seq<Byte>, shift: nat, acc: nat, acc': nat)
    requires data != [] && shift < 64 && acc' == acc + (data[0] % 128) * Bits.Pow2(shift) < TWO64
    ensures data[0] < 128 ==> DecVarint(data, shift, acc) == Ok((acc', 1))
    ensures data[0] >= 128 && DecVarint(data[1..], shift + 7, acc').Ok? ==>
              var (v, n) := DecVarint(data[1..], shift + 7, acc').value;
              DecVarint(data, shift, acc) == Ok((v, n + 1))
  {
    Bits.ModUnique(acc', TWO64, 0, acc');
  }

  lemma TurnStaysBelow(v: nat, shift: nat, acc: nat)
    requires shift < 64 && acc < Bits.Pow2(shift) && v < Bits.Pow2(64 - shift)
    ensures acc + (v % 128) * Bits.Pow2(shift) <= acc + v * Bits.Pow2(shift) < TWO64
  {
    hide Bits.Pow2;
    Bits.Pow2Add(shift, 64 - shift);
    Bits.Pow2At64();
    BelowTop(v, acc, Bits.Pow2(shift), Bits.Pow2(64 - shift));
    SplitSeven(v, Bits.Pow2(shift), acc);
  }

  lemma {:induction false} VarintStep(v: nat, rest: seq<Byte>, shift: nat, acc: nat)
    requires shift < 64 && acc < Bits.Pow2(shift) && v < Bits.Pow2(64 - shift)
    ensures DecVarint(EncVarint(v) + rest, shift, acc) == Ok((acc + v * Bits.Pow2(shift), |EncVarint(v)|))
    decreases v
  {
    hide DecVarint;
    var p := Bits.Pow2(shift);
    var data := EncVarint(v) + rest;
    var acc' := acc + (v % 128) * p;
    TurnStaysBelow(v, shift, acc);
    assert data[0] % 128 == v % 128;
    DecVarintTurn(data, shift, acc, acc');
    if v >= 128 {
      assert data[1..] == EncVarint(v / 128) + rest;
      NextSeven(v, shift);
      SplitSeven(v, p, acc);
      VarintStep(v / 128, rest, shift + 7, acc');
    }
  }

  lemma NextSeven(v: nat, shift: nat)
    requires shift < 64 && 128 <= v < Bits.Pow2(64 - shift)
    ensures shift <= 57 && v / 128 < Bits.Pow2(64 - (shift + 7)) && Bits.Pow2(shift + 7) == 128 * Bits.Pow2(shift)
  {
    hide Bits.Pow2;
    Bits.Pow2At64();
    Bits.Pow2Add(shift, 7);
    if shift > 57 {
      Pow2Le(64 - shift, 7);
    } else {
      Bits.Pow2Add(57 - shift, 7);
    }
  }

  lemma {:induction false} Pow2Le(j: nat, k: nat)
    requires j <= k
    ensures Bits.Pow2(j) <= Bits.Pow2(k)
  {
    if j < k {
      Pow2Le(j, k - 1);
    }
  }

  /** Varint round trip, whatever follows. */
  lemma VarintRoundTrip(v: nat, rest: seq<Byte>)
    requires v < TWO64
    ensures Varint(EncVarint(v) + rest) == Ok((v, |EncVarint(v)|))
  {
    Bits.Pow2At64();
    VarintStep(v, rest, 0, 0);
  }

  /** Decoding looks only at the bytes it consumes. */
  lemma {:induction false} VarintLocal(a: seq<Byte>, b: seq<Byte>, shift: nat, acc: nat)
    requires DecVarint(a, shift, acc).Ok?
    ensures DecVarint(a + b, shift, acc) == DecVarint(a, shift, acc)
    decreases |a|
  {
    assert (a + b)[1..] == a[1..] + b;
    var acc' := (acc + (a[0] % 128) * Bits.Pow2(shift)) % TWO64;
    if a[0] >= 128 {
      VarintLocal(a[1..], b, shift + 7, acc');
    }
  }

  /** sovStat: `(bits.Len64(x|1) + 6) / 7`. */
  function Sov(x: nat): nat {
    (Bits.Len(Bits.Or(x, 1)) + 6) / 7
  }

  lemma OrOne(x: nat)
    ensures Bits.Or(x, 1) == if x % 2 == 1 then x else x + 1
  {
    Bits.OrZero(x / 2);
    assert Bits.Or(x, 1) == 2 * Bits.Or(x / 2, 0) + 1;
  }

  lemma LenSeven(x: nat)
    requires x >= 128
    ensures Bits.Len(x) == 7 + Bits.Len(x / 128)
  {
    var a := x / 2;
    var b := a / 2;
    var c := b / 2;
    var d := c / 2;
    var e := d / 2;
    var f := e / 2;
    assert Bits.Len(x) == 1 + Bits.Len(a);
    assert Bits.Len(a) == 1 + Bits.Len(b);
    assert Bits.Len(b) == 1 + Bits.Len(c);
    assert Bits.Len(c) == 1 + Bits.Len(d);
    assert Bits.Len(d) == 1 + Bits.Len(e);
    assert Bits.Len(e) == 1 + Bits.Len(f);
    assert Bits.Len(f) == 1 + Bits.Len(f / 2);
    assert f / 2 == x / 128;
  }

  lemma LenSmall(x: nat)
    requires 0 < x < 128
    ensures 1 <= Bits.Len(x) <= 7
  {
    assert x / 2 / 2 < 32;
    assert Bits.Len(x) <= 2 + Bits.Len(x / 2 / 2);
    var c := x / 2 / 2;
    assert Bits.Len(c) <= 2 + Bits.Len(c / 2 / 2);
    var e := c / 2 / 2;
    assert e < 8;
    assert Bits.Len(e) <= 3;
  }

  /** The size computed for a varint is the number of bytes written. */
  lemma {:induction false} SovIsLength(v: nat)
    ensures Sov(v) == |EncVarint(v)|
  {
    OrOne(v);
    if v < 128 {
      LenSmall(Bits.Or(v, 1));
    } else {
      SovIsLength(v / 128);
      OrOne(v / 128);
      var w := Bits.Or(v, 1);
      LenSeven(w);
      assert w / 128 == v / 128;
      LenIgnoresLowBit(v / 128);
    }
  }

  lemma LenIgnoresLowBit(x: nat)
    requires x > 0
    ensures Bits.Len(Bits.Or(x, 1)) == Bits.Len(x)
  {
    hide Bits.Or;
    OrOne(x);
    assert Bits.Or(x, 1) / 2 == x / 2;
  }

  // ----- little-endian 64-bit values

  function LittleEndian(v: nat, n: nat): (bs: seq<Byte>)
    ensures |bs| == n
  {
    if n == 0 then [] else [v % 256] + LittleEndian(v / 256, n - 1)
  }

  function FromLittleEndian(bs: seq<Byte>): nat {
    if bs == [] then 0 else bs[0] + 256 * FromLittleEndian(bs[1..])
  }

  lemma {:induction false} LittleEndianRoundTrip(v: nat, n: nat)
    requires v < Bits.Pow2(8 * n)
    ensures FromLittleEndian(LittleEndian(v, n)) == v
  {
    if n > 0 {
      Bits.Pow2At64();
      Bits.Pow2Add(8 * n - 8, 8);
      LittleEndianRoundTrip(v / 256, n - 1);
    }
  }

  lemma {:induction false} FromLittleEndianBound(bs: seq<Byte>)
    ensures FromLittleEndian(bs) < Bits.Pow2(8 * |bs|)
  {
    if bs != [] {
      Bits.Pow2At64();
      Bits.Pow2Add(8 * |bs| - 8, 8);
      FromLittleEndianBound(bs[1..]);
    }
  }

  // ----- skipping

  /** skipStat from a point pos bytes into its argument, inside depth open groups:
      the end of the field, possibly past the end of the data. */
  function Skip(data: seq<Byte>, pos: nat, depth: nat): (r: Result<nat>)
    ensures r.Ok? ==> r.value > pos
    decreases |data|
  {
    if data == [] then Err(UnexpectedEOF)
    else
      var (wire, k) :- Varint(data);
      var (n, depth') :- SkipOne(data, k, wire % 8, depth);
      if pos + n >= TWO63 then Err(InvalidLength)
      else if depth' == 0 then Ok(pos + n)
      else if n > |data| then Err(UnexpectedEOF)
      else Skip(data[n..], pos + n, depth')
  }

  /** The end of one wire item whose tag took k bytes, and the depth after it. */
  function SkipOne(data: seq<Byte>, k: nat, wireType: nat, depth: nat): (r: Result<(nat, nat)>)
    requires 0 < k <= |data|
    ensures r.Ok? ==> r.value.0 >= k
  {
    match wireType
    case 0 =>
      var (_, m) :- Varint(data[k..]);
      Ok((k + m, depth))
    case 1 => Ok((k + 8, depth))
    case 2 =>
      var (len, m) :- Varint(data[k..]);
      if len >= TWO63 then Err(InvalidLength) else Ok((k + m + len, depth))
    case 3 => Ok((k, depth + 1))
    case 4 => if depth == 0 then Err(UnexpectedEndOfGroup) else Ok((k, depth - 1))
    case 5 => Ok((k + 4, depth))
    case _ => Err(IllegalWireType)
  }

  lemma SkipOneLocal(a: seq<Byte>, b: seq<Byte>, k: nat, wireType: nat, depth: nat)
    requires 0 < k <= |a| && SkipOne(a, k, wireType, depth).Ok?
    ensures SkipOne(a + b, k, wireType, depth) == SkipOne(a, k, wireType, depth)
  {
    hide DecVarint;
    assert (a + b)[k..] == a[k..] + b;
    if wireType == 0 || wireType == 2 {
      VarintLocal(a[k..], b, 0, 0);
    }
  }

  /** A skip that ends inside the data does not look further. */
  lemma {:induction false} SkipLocal(a: seq<Byte>, b: seq<Byte>, pos: nat, depth: nat)
    requires Skip(a, pos, depth).Ok? && Skip(a, pos, depth).value <= pos + |a|
    ensures Skip(a + b, pos, depth) == Skip(a, pos, depth)
    decreases |a|
  {
    hide DecVarint, SkipOne;
    VarintLocal(a, b, 0, 0);
    var (wire, k) := Varint(a).value;
    assert Varint(a + b) == Ok((wire, k));
    SkipOneLocal(a, b, k, wire % 8, depth);
    var (n, depth') := SkipOne(a, k, wire % 8, depth).value;
    assert SkipOne(a + b, k, wire % 8, depth) == Ok((n, depth'));
    if depth' != 0 {
      assert Skip(a, pos, depth) == Skip(a[n..], pos + n, depth');
      assert (a + b)[n..] == a[n..] + b;
      SkipLocal(a[n..], b, pos + n, depth');
    }
  }

  // ----- fields

  /** One turn of an Unmarshal loop: a known field's payload, or an unknown field skipped. */
  datatype Field =
    | VarintField(num: nat, v: nat)
    | Fixed64Field(num: nat, v: nat)
    | BytesField(num: nat, payload: seq<Byte>)
    | UnknownField

  /** int32(wire >> 3): field numbers are cut to 32 bits and read as signed. */
  function FieldNumber(wire: nat): int {
    var low := (wire / 8) % 0x1_0000_0000;
    if low >= 0x8000_0000 then low - 0x1_0000_0000 else low
  }

  /** The payload is the one of the wire type: a varint, eight bytes, or counted bytes. */
  predicate HasKind(f: Field, wireType: nat) {
    if wireType == 0 then f.VarintField? else if wireType == 1 then f.Fixed64Field? else f.BytesField?
  }

  /** Numbers fit their 64 bits. */
  predicate FieldOk(f: Field) { f.VarintField? || f.Fixed64Field? ==> f.v < TWO64 }

  lemma Fixed64Bound(bs: seq<Byte>)
    requires |bs| == 8
    ensures FromLittleEndian(bs) < TWO64
  {
    hide FromLittleEndian, Bits.Pow2;
    FromLittleEndianBound(bs);
    Bits.Pow2At64();
  }

  /** The wire type each known field number must carry. */
  type Schema = map<int, nat>

  /** The next field of data, base bytes into the message, and its length. */
  function NextField(data: seq<Byte>, base: nat, schema: Schema): (r: Result<(Field, nat)>)
    requires data != []
    ensures r.Ok? ==> 0 < r.value.1 <= |data|
    ensures r.Ok? && r.value.0.BytesField? ==> |r.value.0.payload| < |data|
    ensures r.Ok? && !r.value.0.UnknownField? ==>
              r.value.0.num in schema && HasKind(r.value.0, schema[r.value.0.num]) && FieldOk(r.value.0)
  {
    var (wire, k) :- Varint(data);
    var num := FieldNumber(wire);
    if wire % 8 == 4 then Err(EndGroup)
    else if num <= 0 then Err(IllegalTag)
    else if num !in schema then
      var n :- Skip(data, 0, 0);
      if base + n >= TWO63 then Err(InvalidLength)
      else if n > |data| then Err(UnexpectedEOF)
      else Ok((UnknownField, n))
    else if wire % 8 != schema[num] then Err(WrongWireType)
    else
      var (f, n) :- Payload(data[k..], base + k, num, wire % 8);
      Ok((f, k + n))
  }

  /** The payload of a known field, by wire type. */
  function Payload(data: seq<Byte>, base: nat, num: nat, wireType: nat): (r: Result<(Field, nat)>)
    ensures r.Ok? ==> r.value.1 <= |data| && !r.value.0.UnknownField? && r.value.0.num == num
    ensures r.Ok? ==> HasKind(r.value.0, wireType) && FieldOk(r.value.0)
    ensures r.Ok? && r.value.0.BytesField? ==> |r.value.0.payload| < |data|
  {
    if wireType == 0 then
      var (v, n) :- Varint(data);
      Ok((VarintField(num, v), n))
    else if wireType == 1 then
      if base + 8 > base + |data| then Err(UnexpectedEOF)
      else
        Fixed64Bound(data[..8]);
        Ok((Fixed64Field(num, FromLittleEndian(data[..8])), 8))
    else
      var (len, n) :- Varint(data);
      if len >= TWO63 then Err(InvalidLength)
      else if base + n + len >= TWO63 then Err(InvalidLength)
      else if n + len > |data| then Err(UnexpectedEOF)
      else Ok((BytesField(num, data[n..n + len]), n + len))
  }

  /** A field that parses does so whatever follows it. */
  lemma NextFieldLocal(a: seq<Byte>, b: seq<Byte>, base: nat, schema: Schema)
    requires a != [] && NextField(a, base, schema).Ok?
    ensures NextField(a + b, base, schema) == NextField(a, base, schema)
  {
    hide DecVarint, Skip, Payload;
    VarintLocal(a, b, 0, 0);
    var (wire, k) := Varint(a).value;
    if FieldNumber(wire) !in schema {
      SkipLocal(a, b, 0, 0);
    } else {
      assert (a + b)[k..] == a[k..] + b;
      PayloadLocal(a[k..], b, base + k, FieldNumber(wire), wire % 8);
    }
  }

  lemma PayloadLocal(a: seq<Byte>, b: seq<Byte>, base: nat, num: nat, wireType: nat)
    requires Payload(a, base, num, wireType).Ok?
    ensures Payload(a + b, base, num, wireType) == Payload(a, base, num, wireType)
  {
    hide DecVarint;
    if wireType == 1 {
      assert (a + b)[..8] == a[..8];
    } else {
      VarintLocal(a, b, 0, 0);
      if wireType != 0 {
        var (len, n) := Varint(a).value;
        assert (a + b)[n..n + len] == a[n..n + len];
      }
    }
  }

  /** Where the field starts decides nothing about a field that parses. */
  lemma NextFieldBase(data: seq<Byte>, base: nat, base': nat, schema: Schema)
    requires data != [] && base' + |data| < TWO63
    ensures NextField(data, base, schema).Ok? ==> NextField(data, base', schema) == NextField(data, base, schema)
  {
  }
}

/** The imperative stat codec: a writer that fills an exactly sized buffer backwards,
    and decoders that walk a moving index.  Both are proved against StatCodec. */
module StatMarshal {
  import opened StatWire
  import opened StatCodec

  // ----- sizes

  function SizeBytes(len: nat): nat { 1 + len + Sov(len) }

  function SizeString(s: seq<Byte>): nat { if |s| > 0 then SizeBytes(|s|) else 0 }

  function SizeFloat(f: nat): nat { if IsZero(f) then 0 else 9 }

  function SizeStat(m: Stat): nat
    requires StatOk(m)
  {
    SizeString(m.podName) + SizeFloat(m.averageConcurrentRequests) + SizeFloat(m.averageProxiedConcurrentRequests)
    + SizeFloat(m.requestCount) + SizeFloat(m.proxiedRequestCount) + SizeFloat(m.processUptime)
    + (if m.timestamp == 0 then 0 else 1 + Sov(ToUint64(m.timestamp)))
  }

  function SizeWire(m: WireStatMessage): nat
    requires WireOk(m)
  {
    SizeString(m.namespace) + SizeString(m.name)
    + (if m.stat.None? then 0 else SizeBytes(SizeStat(m.stat.value)))
  }

  function SizeList(ms: seq<WireStatMessage>): nat
    requires ListOk(ms)
  {
    if ms == [] then 0 else SizeBytes(SizeWire(ms[0])) + SizeList(ms[1..])
  }

  lemma StatFields(m: Stat)
    requires StatOk(m)
    ensures EncStat(m) == EncStatField(m, 1) + (EncStatField(m, 2) + (EncStatField(m, 3) + (EncStatField(m, 4)
                          + (EncStatField(m, 5) + (EncStatField(m, 6) + (EncStatField(m, 7) + []))))))
  {
    hide EncStatField;
    assert EncStatFrom(m, 8) == [];
    assert EncStatFrom(m, 7) == EncStatField(m, 7) + EncStatFrom(m, 8);
    assert EncStatFrom(m, 6) == EncStatField(m, 6) + EncStatFrom(m, 7);
    assert EncStatFrom(m, 5) == EncStatField(m, 5) + EncStatFrom(m, 6);
    assert EncStatFrom(m, 4) == EncStatField(m, 4) + EncStatFrom(m, 5);
    assert EncStatFrom(m, 3) == EncStatField(m, 3) + EncStatFrom(m, 4);
    assert EncStatFrom(m, 2) == EncStatField(m, 2) + EncStatFrom(m, 3);
  }

  lemma StringSize(tag: Byte, s: seq<Byte>)
    ensures SizeString(s) == |EncString(tag, s)| && SizeBytes(|s|) == |EncBytes(tag, s)|
  {
    hide Sov, EncVarint;
    SovIsLength(|s|);
  }

  /** Size is exactly the number of bytes Marshal writes. */
  lemma StatSizeIsLength(m: Stat)
    requires StatOk(m)
    ensures SizeStat(m) == |EncStat(m)|
  {
    hide Sov, EncVarint, EncString, EncStat, EncStatFrom;
    StatFields(m);
    StringSize(0x0a, m.podName);
    SovIsLength(ToUint64(m.timestamp));
  }

  lemma WireSizeIsLength(m: WireStatMessage)
    requires WireOk(m)
    ensures SizeWire(m) == |EncWire(m)|
  {
    hide Sov, EncVarint, SizeStat, EncStat, EncString, SizeString, SizeBytes, EncBytes;
    StringSize(0x0a, m.namespace);
    StringSize(0x12, m.name);
    if m.stat.Some? {
      StatSizeIsLength(m.stat.value);
      StringSize(0x1a, EncStat(m.stat.value));
    }
  }

  lemma {:induction false} ListSizeIsLength(ms: seq<WireStatMessage>)
    requires ListOk(ms)
    ensures SizeList(ms) == |EncList(ms)|
  {
    hide Sov, EncVarint, SizeWire, EncWire, SizeBytes, EncBytes;
    if ms != [] {
      WireSizeIsLength(ms[0]);
      StringSize(0x0a, EncWire(ms[0]));
      ListSizeIsLength(ms[1..]);
    }
  }

  // ----- writing backwards

  /** Only the bytes lo .. hi-1 differ. */
  predicate OnlyChanged(before: seq<Byte>, now: seq<Byte>, lo: nat, hi: nat) {
    && |before| == |now|
    && forall i :: 0 <= i < |now| && !(lo <= i < hi) ==> now[i] == before[i]
  }

  method EncodeVarint(buf: array<Byte>, offset: nat, v: nat) returns (base: nat)
    requires |EncVarint(v)| <= offset <= buf.Length
    modifies buf
    ensures base == offset - |EncVarint(v)| && buf[base..offset] == EncVarint(v)
    ensures OnlyChanged(old(buf[..]), buf[..], base, offset)
  {
    hide Sov;
    SovIsLength(v);
    var o := offset - Sov(v);
    base := o;
    var x := v;
    while x >= 128
      invariant base <= o && o + |EncVarint(x)| == offset
      invariant buf[base..o] + EncVarint(x) == EncVarint(v)
      invariant OnlyChanged(old(buf[..]), buf[..], base, offset)
      decreases x
    {
      ghost var done := buf[base..o];
      buf[o] := x % 128 + 128;
      assert buf[base..o + 1] == done + [x % 128 + 128];
      x := x / 128;
      o := o + 1;
    }
    ghost var done := buf[base..o];
    buf[o] := x;
    assert buf[base..o + 1] == done + [x];
  }

  method PutUint64(buf: array<Byte>, i: nat, v: nat)
    requires i + 8 <= buf.Length && v < TWO64
    modifies buf
    ensures buf[i..i + 8] == LittleEndian(v, 8)
    ensures OnlyChanged(old(buf[..]), buf[..], i, i + 8)
  {
    var x := v;
    for k := 0 to 8
      invariant buf[i..i + k] + LittleEndian(x, 8 - k) == LittleEndian(v, 8)
      invariant OnlyChanged(old(buf[..]), buf[..], i, i + 8)
    {
      ghost var done := buf[i..i + k];
      buf[i + k] := x % 256;
      assert buf[i..i + k + 1] == done + [x % 256];
      x := x / 256;
    }
  }

  /** Length and tag in front of size bytes already written at i. */
  method FrameBytes(buf: array<Byte>, i: nat, tag: Byte, ghost s: seq<Byte>, size: nat) returns (j: nat)
    requires size == |s| && i + size <= buf.Length && buf[i..i + size] == s
    requires 1 + |EncVarint(size)| <= i
    modifies buf
    ensures j == i - 1 - |EncVarint(size)| && buf[j..i + size] == EncBytes(tag, s)
    ensures OnlyChanged(old(buf[..]), buf[..], j, i)
  {
    hide EncVarint;
    j := EncodeVarint(buf, i, size);
    ghost var mid := buf[j..i + size];
    assert mid == EncVarint(size) + s by {
      assert mid[..i - j] == buf[j..i];
      assert mid[i - j..] == s;
    }
    j := j - 1;
    buf[j] := tag;
    assert buf[j..i + size] == [tag] + mid;
  }

  method PutString(buf: array<Byte>, i: nat, tag: Byte, s: seq<Byte>) returns (j: nat)
    requires |EncString(tag, s)| <= i <= buf.Length
    modifies buf
    ensures j == i - |EncString(tag, s)| && buf[j..i] == EncString(tag, s)
    ensures OnlyChanged(old(buf[..]), buf[..], j, i)
  {
    hide EncVarint;
    j := i;
    if |s| > 0 {
      j := j - |s|;
      forall k | 0 <= k < |s| {
        buf[j + k] := s[k];
      }
      assert buf[j..j + |s|] == s;
      j := FrameBytes(buf, j, tag, s, |s|);
    }
  }

  method PutFloat(buf: array<Byte>, i: nat, tag: Byte, f: nat) returns (j: nat)
    requires |EncFloat(tag, f)| <= i <= buf.Length && f < TWO64
    modifies buf
    ensures j == i - |EncFloat(tag, f)| && buf[j..i] == EncFloat(tag, f)
    ensures OnlyChanged(old(buf[..]), buf[..], j, i)
  {
    hide LittleEndian;
    j := i;
    if !IsZero(f) {
      j := j - 8;
      PutUint64(buf, j, f);
      ghost var mid := buf[j..i];
      j := j - 1;
      buf[j] := tag;
      assert buf[j..i] == [tag] + mid;
    }
  }

  method PutInt(buf: array<Byte>, i: nat, tag: Byte, t: int) returns (j: nat)
    requires MIN_INT64 <= t < TWO63 && |EncInt(tag, t)| <= i <= buf.Length
    modifies buf
    ensures j == i - |EncInt(tag, t)| && buf[j..i] == EncInt(tag, t)
    ensures OnlyChanged(old(buf[..]), buf[..], j, i)
  {
    hide EncVarint;
    j := i;
    if t != 0 {
      j := EncodeVarint(buf, j, ToUint64(t));
      ghost var mid := buf[j..i];
      j := j - 1;
      buf[j] := tag;
      assert buf[j..i] == [tag] + mid;
    }
  }

  /** What was written below i stands in front of what was written before. */
  lemma Joined(before: seq<Byte>, now: seq<Byte>, j: nat, i: nat, end: nat, head: seq<Byte>, tail: seq<Byte>)
    requires j <= i <= end <= |before| && OnlyChanged(before, now, j, i)
    requires now[j..i] == head && before[i..end] == tail
    ensures now[j..end] == head + tail
    ensures forall lo: nat, hi: nat :: lo <= j && i <= hi ==> OnlyChanged(before, now, lo, hi)
  {
    assert now[j..end] == now[j..i] + now[i..end];
    assert now[i..end] == before[i..end];
  }

  lemma ChangesCompose(a: seq<Byte>, b: seq<Byte>, c: seq<Byte>, lo: nat, hi: nat)
    requires OnlyChanged(a, b, lo, hi) && OnlyChanged(b, c, lo, hi)
    ensures OnlyChanged(a, c, lo, hi)
  {
  }

  /** Stat.MarshalToSizedBuffer(dAtA[:end]): the encoding ends exactly at end. */
  method MarshalStatTo(buf: array<Byte>, end: nat, m: Stat) returns (n: nat)
    requires StatOk(m) && |EncStat(m)| <= end <= buf.Length
    modifies buf
    ensures n == |EncStat(m)| && buf[end - n..end] == EncStat(m)
    ensures OnlyChanged(old(buf[..]), buf[..], end - n, end)
  {
    hide EncString, EncFloat, EncInt;
    StatFields(m);
    var i := end;
    i := PutInt(buf, i, 0x38, m.timestamp);
    ghost var tail := EncStatField(m, 7) + [];
    assert buf[i..end] == tail;
    i, tail := NextFloatDown(buf, i, end, 0x31, m.processUptime, old(buf[..]), tail);
    i, tail := NextFloatDown(buf, i, end, 0x29, m.proxiedRequestCount, old(buf[..]), tail);
    i, tail := NextFloatDown(buf, i, end, 0x21, m.requestCount, old(buf[..]), tail);
    i, tail := NextFloatDown(buf, i, end, 0x19, m.averageProxiedConcurrentRequests, old(buf[..]), tail);
    i, tail := NextFloatDown(buf, i, end, 0x11, m.averageConcurrentRequests, old(buf[..]), tail);
    i := NextStringDown(buf, i, end, 0x0a, m.podName, old(buf[..]), tail);
    n := end - i;
  }

  method NextFloatDown(
    buf: array<Byte>, i: nat, end: nat, tag: Byte, f: nat, ghost orig: seq<Byte>, ghost tail: seq<Byte>)
    returns (j: nat, ghost tail': seq<Byte>)
    requires |EncFloat(tag, f)| <= i <= end <= buf.Length && f < TWO64
    requires buf[i..end] == tail && OnlyChanged(orig, buf[..], i, end)
    modifies buf
    ensures tail' == EncFloat(tag, f) + tail && j == end - |tail'|
    ensures buf[j..end] == tail' && OnlyChanged(orig, buf[..], j, end)
  {
    hide EncFloat;
    ghost var before := buf[..];
    assert before[i..end] == tail;
    j := PutFloat(buf, i, tag, f);
    Joined(before, buf[..], j, i, end, EncFloat(tag, f), tail);
    ChangesCompose(orig, before, buf[..], j, end);
    tail' := EncFloat(tag, f) + tail;
    assert buf[j..end] == buf[..][j..end];
  }

  method NextStringDown(
    buf: array<Byte>, i: nat, end: nat, tag: Byte, s: seq<Byte>, ghost orig: seq<Byte>, ghost tail: seq<Byte>)
    returns (j: nat)
    requires |EncString(tag, s)| <= i <= end <= buf.Length
    requires buf[i..end] == tail && OnlyChanged(orig, buf[..], i, end)
    modifies buf
    ensures j == end - |EncString(tag, s) + tail|
    ensures buf[j..end] == EncString(tag, s) + tail && OnlyChanged(orig, buf[..], j, end)
  {
    hide EncString;
    ghost var before := buf[..];
    assert before[i..end] == tail;
    j := PutString(buf, i, tag, s);
    Joined(before, buf[..], j, i, end, EncString(tag, s), tail);
    ChangesCompose(orig, before, buf[..], j, end);
    assert buf[j..end] == buf[..][j..end];
  }

  /** WireStatMessage.MarshalToSizedBuffer(dAtA[:end]). */
  method MarshalWireTo(buf: array<Byte>, end: nat, m: WireStatMessage) returns (n: nat)
    requires WireOk(m) && |EncWire(m)| <= end <= buf.Length
    modifies buf
    ensures n == |EncWire(m)| && buf[end - n..end] == EncWire(m)
    ensures OnlyChanged(old(buf[..]), buf[..], end - n, end)
  {
    hide EncString, EncStat, EncVarint;
    var i := end;
    if m.stat.Some? {
      var size := MarshalStatTo(buf, i, m.stat.value);
      i := i - size;
      ghost var before := buf[..];
      i := FrameBytes(buf, i, 0x1a, EncStat(m.stat.value), size);
      ChangesCompose(old(buf[..]), before, buf[..], i, end);
    }
    ghost var tail := EncOptionalStat(m.stat);
    assert buf[i..end] == tail;
    i := NextStringDown(buf, i, end, 0x12, m.name, old(buf[..]), tail);
    i := NextStringDown(buf, i, end, 0x0a, m.namespace, old(buf[..]), EncString(0x12, m.name) + tail);
    n := end - i;
  }

  lemma {:induction false} EncListSplit(a: seq<WireStatMessage>, b: seq<WireStatMessage>)
    requires ListOk(a) && ListOk(b)
    ensures ListOk(a + b) && EncList(a + b) == EncList(a) + EncList(b)
  {
    hide EncBytes, EncWire;
    if a == [] {
      assert a + b == b;
    } else {
      assert (a + b)[1..] == a[1..] + b;
      EncListSplit(a[1..], b);
    }
  }

  /** WireStatMessages.MarshalToSizedBuffer(dAtA[:end]): last message first. */
  method MarshalListTo(buf: array<Byte>, end: nat, ms: seq<WireStatMessage>) returns (n: nat)
    requires ListOk(ms) && |EncList(ms)| <= end <= buf.Length
    modifies buf
    ensures n == |EncList(ms)| && buf[end - n..end] == EncList(ms)
    ensures OnlyChanged(old(buf[..]), buf[..], end - n, end)
  {
    hide EncWire, EncVarint;
    var i := end;
    var k := |ms|;
    while k > 0
      invariant 0 <= k <= |ms| && i == end - |EncList(ms[k..])|
      invariant buf[i..end] == EncList(ms[k..])
      invariant OnlyChanged(old(buf[..]), buf[..], i, end)
    {
      k := k - 1;
      ghost var inner, tail := EncWire(ms[k]), EncList(ms[k + 1..]);
      assert ms[k..] == [ms[k]] + ms[k + 1..];
      EncListSplit(ms[..k], ms[k..]);
      assert ms[..k] + ms[k..] == ms;
      ghost var before := buf[..];
      i := PutMessage(buf, i, end, ms[k], tail);
      ChangesCompose(old(buf[..]), before, buf[..], i, end);
    }
    assert ms[0..] == ms;
    n := end - i;
  }

  method PutMessage(buf: array<Byte>, i: nat, end: nat, m: WireStatMessage, ghost tail: seq<Byte>) returns (j: nat)
    requires WireOk(m) && |EncBytes(0x0a, EncWire(m))| <= i <= end <= buf.Length && buf[i..end] == tail
    modifies buf
    ensures j == i - |EncBytes(0x0a, EncWire(m))| && buf[j..end] == EncBytes(0x0a, EncWire(m)) + tail
    ensures OnlyChanged(old(buf[..]), buf[..], j, end)
  {
    hide EncWire, EncVarint;
    ghost var before := buf[..];
    assert before[i..end] == tail;
    var size := MarshalWireTo(buf, i, m);
    ghost var mid := buf[..];
    j := FrameBytes(buf, i - size, 0x0a, EncWire(m), size);
    ChangesCompose(before, mid, buf[..], j, i);
    Joined(before, buf[..], j, i, end, EncBytes(0x0a, EncWire(m)), tail);
    assert buf[j..end] == buf[..][j..end];
  }

  /** Marshal allocates Size bytes and the backward writer stops at offset 0. */
  method MarshalStat(m: Stat) returns (data: seq<Byte>)
    requires StatOk(m)
    ensures data == EncStat(m) && |data| == SizeStat(m)
  {
    hide EncStat, SizeStat;
    StatSizeIsLength(m);
    var buf := new Byte[SizeStat(m)];
    var n := MarshalStatTo(buf, buf.Length, m);
    data := buf[..n];
  }

  method MarshalWire(m: WireStatMessage) returns (data: seq<Byte>)
    requires WireOk(m)
    ensures data == EncWire(m) && |data| == SizeWire(m)
  {
    hide EncWire, SizeWire;
    WireSizeIsLength(m);
    var buf := new Byte[SizeWire(m)];
    var n := MarshalWireTo(buf, buf.Length, m);
    data := buf[..n];
  }

  method MarshalList(ms: seq<WireStatMessage>) returns (data: seq<Byte>)
    requires ListOk(ms)
    ensures data == EncList(ms) && |data| == SizeList(ms)
  {
    hide EncList, SizeList;
    ListSizeIsLength(ms);
    var buf := new Byte[SizeList(ms)];
    var n := MarshalListTo(buf, buf.Length, ms);
    data := buf[..n];
  }
}

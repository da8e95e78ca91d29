/** The autoscaler's time-bucket ring: values are added to one slot per bucket of
    time, indexed modulo the window, with the window's total kept incrementally.
    The specification is a plain log of every record; times are bucket numbers. */
module Buckets {
  import opened Common
  import Bits

  datatype Rec = Rec(bucket: nat, value: real)

  /** A truncated time: `time.Time{}`, earlier than every window, or a bucket number. */
  datatype Stamp = Never | At(bucket: int)

  // ----- the log and its sums

  /** Everything ever recorded for bucket i. */
  function SumAt(log: seq<Rec>, i: int): real {
    if log == [] then 0.0
    else
      var r := log[|log| - 1];
      SumAt(log[..|log| - 1], i) + (if r.bucket == i then r.value else 0.0)
  }

  /** Everything recorded for the buckets lo < i <= hi. */
  function SumRange(log: seq<Rec>, lo: int, hi: int): real
    decreases hi - lo
  {
    if hi <= lo then 0.0 else SumRange(log, lo, hi - 1) + SumAt(log, hi)
  }

  /** The records newer than bucket lo. */
  function Kept(log: seq<Rec>, lo: int): seq<Rec> {
    if log == [] then []
    else
      var r := log[|log| - 1];
      Kept(log[..|log| - 1], lo) + (if r.bucket > lo then [r] else [])
  }

  ghost predicate UpTo(log: seq<Rec>, last: int) {
    forall k :: 0 <= k < |log| ==> log[k].bucket <= last
  }

  lemma SumAtAppend(log: seq<Rec>, r: Rec, i: int)
    ensures SumAt(log + [r], i) == SumAt(log, i) + (if r.bucket == i then r.value else 0.0)
  {
    assert (log + [r])[..|log|] == log;
  }

  lemma {:induction false} SumRangeAppend(log: seq<Rec>, r: Rec, lo: int, hi: int)
    ensures SumRange(log + [r], lo, hi) == SumRange(log, lo, hi) + (if lo < r.bucket <= hi then r.value else 0.0)
    decreases hi - lo
  {
    if lo < hi {
      SumRangeAppend(log, r, lo, hi - 1);
      SumAtAppend(log, r, hi);
    }
  }

  lemma {:induction false} SumAtBeyond(log: seq<Rec>, last: int, i: int)
    requires UpTo(log, last) && i > last
    ensures SumAt(log, i) == 0.0
  {
    if log != [] {
      assert log[|log| - 1].bucket <= last;
      SumAtBeyond(log[..|log| - 1], last, i);
    }
  }

  lemma SumRangeNone(log: seq<Rec>, lo: int)
    ensures SumRange(log, lo, lo) == 0.0
  {
  }

  lemma {:induction false} SumRangeBeyond(log: seq<Rec>, last: int, lo: int, hi: int)
    requires UpTo(log, last) && lo >= last
    ensures SumRange(log, lo, hi) == 0.0
    decreases hi - lo
  {
    if lo < hi {
      SumRangeBeyond(log, last, lo, hi - 1);
      SumAtBeyond(log, last, hi);
    }
  }

  lemma {:induction false} SumRangeSplit(log: seq<Rec>, lo: int, mid: int, hi: int)
    requires lo <= mid <= hi
    ensures SumRange(log, lo, hi) == SumRange(log, lo, mid) + SumRange(log, mid, hi)
    decreases hi - mid
  {
    if mid < hi {
      SumRangeSplit(log, lo, mid, hi - 1);
    }
  }

  lemma {:induction false} SumRangeFirst(log: seq<Rec>, lo: int, hi: int)
    requires lo < hi
    ensures SumRange(log, lo, hi) == SumAt(log, lo + 1) + SumRange(log, lo + 1, hi)
  {
    SumRangeSplit(log, lo, lo + 1, hi);
    assert SumRange(log, lo, lo + 1) == SumRange(log, lo, lo) + SumAt(log, lo + 1);
  }

  lemma {:induction false} KeptSum(log: seq<Rec>, lo: int, i: int)
    ensures SumAt(Kept(log, lo), i) == if i > lo then SumAt(log, i) else 0.0
  {
    if log != [] {
      var r := log[|log| - 1];
      KeptSum(log[..|log| - 1], lo, i);
      SumAtAppend(Kept(log[..|log| - 1], lo), r, i);
      assert Kept(log[..|log| - 1], lo) + [] == Kept(log[..|log| - 1], lo);
    }
  }

  lemma {:induction false} KeptRange(log: seq<Rec>, lo: int, from: int, hi: int)
    requires from <= lo <= hi
    ensures SumRange(Kept(log, lo), from, hi) == SumRange(log, lo, hi)
    decreases hi - from
  {
    if from < hi {
      KeptSum(log, lo, hi);
      if hi > lo {
        KeptRange(log, lo, from, hi - 1);
      } else {
        KeptRange(log, lo - 1, from, hi - 1);
        KeptRangeEmpty(log, lo, from, hi);
      }
    }
  }

  lemma {:induction false} KeptRangeEmpty(log: seq<Rec>, lo: int, from: int, hi: int)
    requires hi <= lo
    ensures SumRange(Kept(log, lo), from, hi) == 0.0
    decreases hi - from
  {
    if from < hi {
      KeptSum(log, lo, hi);
      KeptRangeEmpty(log, lo, from, hi - 1);
    }
  }

  lemma {:induction false} KeptUpTo(log: seq<Rec>, lo: int, last: int)
    requires UpTo(log, last)
    ensures UpTo(Kept(log, lo), last)
  {
    if log != [] {
      assert UpTo(log[..|log| - 1], last);
      assert log[|log| - 1].bucket <= last;
      KeptUpTo(log[..|log| - 1], lo, last);
    }
  }

  // ----- slots

  lemma SlotOfNext(i: int, n: int)
    requires n > 0
    ensures (i + n) % n == i % n
  {
    var q := i / n;
    assert i + n == (q + 1) * n + i % n;
    Bits.ModUnique(i + n, n, q + 1, i % n);
  }

  lemma SlotsDiffer(i: int, j: int, n: int)
    requires n > 0 && i < j < i + n
    ensures i % n != j % n
  {
    if i % n == j % n {
      var d := j / n - i / n;
      assert d * n == j - i by {
        assert i == (i / n) * n + i % n;
        assert j == (j / n) * n + j % n;
        assert (j / n) * n - (i / n) * n == d * n;
      }
      if d >= 1 {
        Bits.MulMono(1, d, n);
      } else {
        Bits.MulMono(d, 0, n);
      }
      assert false;
    }
  }

  /** The bucket of the window ending at last that lives in slot k. */
  function BucketOf(k: int, last: int, n: int): int
    requires n > 0
  {
    last - (last - k) % n
  }

  lemma SlotHasBucket(k: int, last: int, n: int)
    requires 0 <= k < n
    ensures last - n < BucketOf(k, last, n) <= last && BucketOf(k, last, n) % n == k
  {
    var d := last - k;
    var q := d / n;
    assert d == q * n + d % n;
    assert BucketOf(k, last, n) == q * n + k;
    Bits.ModUnique(q * n + k, n, q, k);
  }

  // ----- stamps, divisor and rounding

  function Later(last: Stamp, b: int): Stamp {
    if last.Never? || b > last.bucket then At(b) else last
  }

  /** The first write of the current stretch: reset after a window without writes,
      moved back by a late record that is not yet too old. */
  function NextFirst(first: Stamp, last: Stamp, n: nat, b: int): Stamp {
    if last.Never? || b - last.bucket >= n then At(b)
    else if b == last.bucket || b + n <= last.bucket then first
    else if first.Never? || first.bucket > b then At(b)
    else first
  }

  /** The number of buckets the average is taken over. */
  function Divisor(first: Stamp, last: int, n: nat, now: int): int {
    var valid := n - Max(0, now - last);
    if first.Never? then valid else Min(last - first.bucket + 1, valid)
  }

  /** math.Round: to the nearest integer, halves away from zero. */
  function Round(x: real): int {
    if x < 0.0 then -((-x + 0.5).Floor) else (x + 0.5).Floor
  }

  function RoundToSixDigits(x: real): (r: real)
    ensures x - 0.0000005 <= r <= x + 0.0000005
  {
    Round(x * 1000000.0) as real / 1000000.0
  }

  /** The result has at most six digits after the point. */
  lemma SixDigits(x: real) returns (k: int)
    ensures RoundToSixDigits(x) == k as real / 1000000.0 && k == Round(x * 1000000.0)
  {
    k := Round(x * 1000000.0);
  }

  /** Halves are rounded away from zero, whatever the sign. */
  lemma RoundingTies(k: nat, y: real)
    ensures Round(k as real + 0.5) == k + 1 && Round(-y) == -Round(y)
  {
  }

  /** How many of the buckets lo < i <= hi are not before first. */
  function CountFrom(lo: int, hi: int, first: int): nat
    decreases hi - lo
  {
    if hi <= lo then 0 else CountFrom(lo, hi - 1, first) + (if hi >= first then 1 else 0)
  }

  lemma {:induction false} CountFromClosed(lo: int, hi: int, first: int)
    requires lo <= hi
    ensures CountFrom(lo, hi, first) == Max(0, Min(hi - lo, hi - first + 1))
    decreases hi - lo
  {
    if lo < hi {
      CountFromClosed(lo, hi - 1, first);
    }
  }

  /** The divisor counts the buckets of the summed range from the first write on. */
  lemma DivisorCounts(first: int, last: int, n: nat, now: int)
    requires first <= last && now - last < n && n > 0
    ensures Divisor(At(first), last, n, now) == CountFrom(Max(now, last) - n, last, first) >= 1
  {
    CountFromClosed(Max(now, last) - n, last, first);
  }

  // ----- the ring as a sequence of slots

  /** Slot by slot, the ring is the window of the log that ends at last. */
  ghost predicate Holds(ring: seq<real>, log: seq<Rec>, last: int) {
    |ring| > 0 && forall i :: last - |ring| < i <= last ==> Slot(ring, i) == SumAt(log, i)
  }

  function Slot(ring: seq<real>, i: int): real
    requires |ring| > 0
  {
    ring[i % |ring|]
  }

  /** A ring is determined by the sums of its window. */
  lemma HoldsUnique(a: seq<real>, b: seq<real>, log: seq<Rec>, log': seq<Rec>, last: int)
    requires |a| == |b| && Holds(a, log, last) && Holds(b, log', last)
    requires forall i :: last - |a| < i <= last ==> SumAt(log, i) == SumAt(log', i)
    ensures a == b
  {
    forall k | 0 <= k < |a|
      ensures a[k] == b[k]
    {
      SlotHasBucket(k, last, |a|);
      assert Slot(a, BucketOf(k, last, |a|)) == Slot(b, BucketOf(k, last, |a|));
    }
  }

  lemma HoldsZero(ring: seq<real>, log: seq<Rec>, last: int, now: int)
    requires |ring| > 0 && UpTo(log, last) && now - last >= |ring|
    requires forall k :: 0 <= k < |ring| ==> ring[k] == 0.0
    ensures Holds(ring, log, now) && SumRange(log, now - |ring|, now) == 0.0
  {
    forall i | now - |ring| < i <= now
      ensures Slot(ring, i) == SumAt(log, i)
    {
      SumAtBeyond(log, last, i);
    }
    SumRangeBeyond(log, last, now - |ring|, now);
  }

  /** Moving the window one bucket on: the slot of bucket i held bucket i - n. */
  lemma HoldsShift(ring: seq<real>, log: seq<Rec>, i: int)
    requires Holds(ring, log, i - 1) && SumAt(log, i) == 0.0
    ensures Slot(ring, i) == SumAt(log, i - |ring|)
    ensures Holds(ring[i % |ring| := 0.0], log, i)
    ensures SumRange(log, i - |ring|, i) == SumRange(log, i - 1 - |ring|, i - 1) - Slot(ring, i)
  {
    var n := |ring|;
    SlotOfNext(i - n, n);
    assert Slot(ring, i - n) == SumAt(log, i - n);
    SumRangeFirst(log, i - 1 - n, i - 1);
    var next := ring[i % n := 0.0];
    forall j | i - n < j <= i
      ensures Slot(next, j) == SumAt(log, j)
    {
      if j < i {
        SlotsDiffer(j, i, n);
        assert Slot(next, j) == Slot(ring, j);
      }
    }
  }

  lemma HoldsAdd(ring: seq<real>, log: seq<Rec>, last: int, r: Rec)
    requires Holds(ring, log, last) && last - |ring| < r.bucket <= last
    ensures Holds(ring[r.bucket % |ring| := Slot(ring, r.bucket) + r.value], log + [r], last)
    ensures SumRange(log + [r], last - |ring|, last) == SumRange(log, last - |ring|, last) + r.value
  {
    var n := |ring|;
    var next := ring[r.bucket % n := Slot(ring, r.bucket) + r.value];
    forall j | last - n < j <= last
      ensures Slot(next, j) == SumAt(log + [r], j)
    {
      SumAtAppend(log, r, j);
      assert Slot(ring, j) == SumAt(log, j);
      if j < r.bucket {
        SlotsDiffer(j, r.bucket, n);
      } else if j > r.bucket {
        SlotsDiffer(r.bucket, j, n);
      }
    }
    SumRangeAppend(log, r, last - n, last);
  }

  lemma HoldsTooOld(ring: seq<real>, log: seq<Rec>, last: int, r: Rec)
    requires Holds(ring, log, last) && r.bucket + |ring| <= last
    ensures Holds(ring, log + [r], last)
    ensures SumRange(log + [r], last - |ring|, last) == SumRange(log, last - |ring|, last)
  {
    forall j | last - |ring| < j <= last
      ensures Slot(ring, j) == SumAt(log + [r], j)
    {
      SumAtAppend(log, r, j);
    }
    SumRangeAppend(log, r, last - |ring|, last);
  }

  class TimedFloat64Buckets {
    var buckets: array<real>
    var firstWrite: Stamp
    var lastWrite: Stamp
    var windowTotal: real
    ghost var log: seq<Rec>

    /** The ring refines the log: each slot of the window ending at the last write is
        the sum of all that was ever recorded for its bucket, the total is their sum. */
    ghost predicate Valid()
      reads this, buckets
    {
      && buckets.Length > 0
      && match lastWrite
         case Never =>
           && firstWrite.Never? && log == [] && windowTotal == 0.0
           && forall k :: 0 <= k < buckets.Length ==> buckets[k] == 0.0
         case At(last) =>
           && last >= 0 && UpTo(log, last)
           && (firstWrite.At? ==> firstWrite.bucket <= last)
           && Holds(buckets[..], log, last)
           && windowTotal == SumRange(log, last - buckets.Length, last)
    }

    constructor (n: nat)
      requires n > 0
      ensures Valid() && fresh(buckets) && buckets.Length == n && log == []
      ensures firstWrite == Never && lastWrite == Never
    {
      buckets := new real[n](_ => 0.0);
      firstWrite, lastWrite, windowTotal, log := Never, Never, 0.0, [];
    }

    /** Record in any order: in time, late, after a gap, or too old to matter. */
    method Record(now: nat, value: real)
      requires Valid()
      modifies this, buckets
      ensures Valid() && buckets == old(buckets)
      ensures log == old(log) + [Rec(now, value)]
      ensures lastWrite == Later(old(lastWrite), now)
      ensures firstWrite == NextFirst(old(firstWrite), old(lastWrite), buckets.Length, now)
    {
      hide SumAt, SumRange, Holds;
      var n := buckets.Length;
      ghost var r := Rec(now, value);
      if lastWrite != At(now) {
        if lastWrite.Never? || now + n > lastWrite.bucket {
          if firstWrite.Never? || firstWrite.bucket > now {
            firstWrite := At(now);
          }
          if lastWrite.Never? || now > lastWrite.bucket {
            if lastWrite.Never? || now - lastWrite.bucket >= n {
              firstWrite := At(now);
              Clear();
              windowTotal := 0.0;
              HoldsZero(buckets[..], log, if lastWrite.Never? then now - n else lastWrite.bucket, now);
            } else {
              Advance(lastWrite.bucket, now);
            }
            lastWrite := At(now);
          }
        } else {
          HoldsTooOld(buckets[..], log, lastWrite.bucket, r);
          log := log + [r];
          return;
        }
      }
      Add(now, value);
    }

    /** Adds the value to a slot of the current window and to the total. */
    method Add(now: nat, value: real)
      requires Valid() && lastWrite.At? && lastWrite.bucket - buckets.Length < now <= lastWrite.bucket
      modifies this`windowTotal, this`log, buckets
      ensures Valid() && log == old(log) + [Rec(now, value)]
    {
      var idx := now % buckets.Length;
      ghost var ring := buckets[..];
      HoldsAdd(ring, log, lastWrite.bucket, Rec(now, value));
      buckets[idx] := buckets[idx] + value;
      assert buckets[..] == ring[idx := Slot(ring, now) + value];
      windowTotal := windowTotal + value;
      log := log + [Rec(now, value)];
    }

    method Clear()
      modifies buckets
      ensures forall k :: 0 <= k < buckets.Length ==> buckets[k] == 0.0
    {
      for i := 0 to buckets.Length
        invariant forall k :: 0 <= k < i ==> buckets[k] == 0.0
      {
        buckets[i] := 0.0;
      }
    }

    /** Zeroes the slots of the buckets last+1 .. now, taking them out of the total. */
    method Advance(last: nat, now: nat)
      requires last <= now && UpTo(log, last)
      requires Holds(buckets[..], log, last) && windowTotal == SumRange(log, last - buckets.Length, last)
      modifies this`windowTotal, buckets
      ensures Holds(buckets[..], log, now) && windowTotal == SumRange(log, now - buckets.Length, now)
    {
      var n := buckets.Length;
      var i := last + 1;
      while i <= now
        invariant last < i <= now + 1
        invariant Holds(buckets[..], log, i - 1)
        invariant windowTotal == SumRange(log, i - 1 - n, i - 1)
      {
        var idx := i % n;
        ghost var ring := buckets[..];
        SumAtBeyond(log, last, i);
        HoldsShift(ring, log, i);
        windowTotal := windowTotal - buckets[idx];
        buckets[idx] := 0.0;
        assert buckets[..] == ring[idx := 0.0];
        i := i + 1;
      }
    }

    predicate IsEmpty(now: int)
      reads this
      requires buckets.Length > 0
    {
      lastWrite.Never? || now - lastWrite.bucket > buckets.Length
    }

    /** The average over the part of the window the log covers: the log's sum over
        (max(now, last) - n, last], over a divisor that is never zero, to six digits. */
    method WindowAverage(now: int) returns (avg: real)
      requires Valid()
      ensures lastWrite.Never? || now - lastWrite.bucket >= buckets.Length ==> avg == 0.0
      ensures lastWrite.At? && now - lastWrite.bucket < buckets.Length ==>
                var last := lastWrite.bucket;
                var d := Divisor(firstWrite, last, buckets.Length, now);
                && d >= 1
                && avg == RoundToSixDigits(SumRange(log, Max(now, last) - buckets.Length, last) / d as real)
    {
      hide SumAt, SumRange, RoundToSixDigits;
      var n := buckets.Length;
      if lastWrite.Never? {
        return 0.0;
      }
      var last := lastWrite.bucket;
      if now <= last {
        var d := if firstWrite.Never? then n else Min(last - firstWrite.bucket + 1, n);
        avg := RoundToSixDigits(windowTotal / d as real);
      } else if now - last < n {
        var ret := windowTotal;
        var i := last + 1;
        SumRangeSplit(log, last - n, last - n, last);
        while i <= now
          invariant last < i <= now + 1
          invariant ret == SumRange(log, i - 1 - n, last)
        {
          SlotOfNext(i - n, n);
          assert Slot(buckets[..], i - n) == SumAt(log, i - n);
          SumRangeFirst(log, i - 1 - n, last);
          ret := ret - buckets[i % n];
          i := i + 1;
        }
        var d := if firstWrite.Never? then n - (now - last) else Min(last - firstWrite.bucket + 1, n - (now - last));
        avg := RoundToSixDigits(ret / d as real);
      } else {
        avg := 0.0;
      }
    }

    /** Re-homes the newest min(old, new) buckets under the new modulus when there is
        live data, else starts empty.  The log is cut to what the ring still knows. */
    method ResizeWindow(m: nat, now: int)
      requires Valid() && m > 0
      // Bucket numbers count from the Unix epoch, so no window reaches below zero.
      requires lastWrite.At? ==> lastWrite.bucket + 1 >= Min(m, buckets.Length)
      modifies this
      ensures Valid() && buckets.Length == m && lastWrite == old(lastWrite)
      ensures m != old(buckets.Length) ==> fresh(buckets)
      ensures m == old(buckets.Length) ==>
                && buckets == old(buckets) && log == old(log)
                && firstWrite == old(firstWrite) && windowTotal == old(windowTotal)
      ensures m != old(buckets.Length) && !(lastWrite.At? && now - lastWrite.bucket <= old(buckets.Length)) ==>
                log == [] && firstWrite == Never && windowTotal == 0.0
      ensures m != old(buckets.Length) && lastWrite.At? && now - lastWrite.bucket <= old(buckets.Length) ==>
                && log == Kept(old(log), lastWrite.bucket - Min(m, old(buckets.Length)))
                && firstWrite == At(lastWrite.bucket - (old(buckets.Length) - 1))
    {
      hide SumAt, SumRange, Holds, Kept;
      var n := buckets.Length;
      if m == n {
        return;
      }
      if Live(now) {
        var last := lastWrite.bucket;
        var newBuckets, newTotal := CopyNewest(m, last);
        firstWrite := At(last - (n - 1));
        log := Kept(log, last - Min(m, n));
        buckets, windowTotal := newBuckets, newTotal;
      } else {
        buckets := new real[m](_ => 0.0);
        firstWrite, windowTotal, log := Never, 0.0, [];
        if lastWrite.At? {
          HoldsEmpty(buckets[..], lastWrite.bucket);
        }
      }
    }

    /** The copy loop: the newest min(m, n) buckets, each to its slot modulo m. */
    method CopyNewest(m: nat, last: nat) returns (newBuckets: array<real>, newTotal: real)
      requires m > 0 && last + 1 >= Min(m, buckets.Length) && UpTo(log, last) && Holds(buckets[..], log, last)
      ensures fresh(newBuckets) && newBuckets.Length == m
      ensures var kept := Kept(log, last - Min(m, buckets.Length));
              UpTo(kept, last) && Holds(newBuckets[..], kept, last) && newTotal == SumRange(kept, last - m, last)
    {
      hide SumAt, SumRange, Kept, CopiedTo;
      var n := buckets.Length;
      newBuckets := new real[m](_ => 0.0);
      newTotal := 0.0;
      SumRangeNone(log, last);
      CopiedNone(newBuckets[..], log, last);
      var count := Min(m, n);
      var k := 0;
      while k < count
        invariant 0 <= k <= count
        invariant newTotal == SumRange(log, last - k, last)
        invariant CopiedTo(newBuckets[..], log, last, k)
      {
        var tIdx := last - k;
        var oi, ni := tIdx % n, tIdx % m;
        ghost var before := newBuckets[..];
        assert Slot(buckets[..], tIdx) == SumAt(log, tIdx);
        SumRangeFirst(log, tIdx - 1, last);
        CopyOne(before, log, last, k, buckets[oi]);
        newBuckets[ni] := buckets[oi];
        assert newBuckets[..] == before[ni := buckets[oi]];
        newTotal := newTotal + buckets[oi];
        k := k + 1;
      }
      CopiedIsKept(newBuckets[..], log, last, count);
    }

    /** Something was written within the window that ends now. */
    predicate Live(now: int)
      reads this
      requires buckets.Length > 0
    {
      !IsEmpty(now)
    }
  }

  lemma {:induction false} SumRangeOfNothing(lo: int, hi: int)
    ensures SumRange([], lo, hi) == 0.0
    decreases hi - lo
  {
    if lo < hi {
      SumRangeOfNothing(lo, hi - 1);
    }
  }

  lemma HoldsEmpty(ring: seq<real>, last: int)
    requires |ring| > 0 && forall k :: 0 <= k < |ring| ==> ring[k] == 0.0
    ensures Holds(ring, [], last) && SumRange([], last - |ring|, last) == 0.0
  {
    SumRangeOfNothing(last - |ring|, last);
  }

  /** The k newest buckets are in place, every other slot is zero. */
  ghost predicate CopiedTo(ring: seq<real>, log: seq<Rec>, last: int, k: nat) {
    |ring| > 0 && forall i :: last - |ring| < i <= last ==>
                    Slot(ring, i) == if i > last - k then SumAt(log, i) else 0.0
  }

  lemma CopiedNone(ring: seq<real>, log: seq<Rec>, last: int)
    requires |ring| > 0 && forall k :: 0 <= k < |ring| ==> ring[k] == 0.0
    ensures CopiedTo(ring, log, last, 0)
  {
  }

  lemma CopiedIsKept(ring: seq<real>, log: seq<Rec>, last: int, count: nat)
    requires CopiedTo(ring, log, last, count) && count <= |ring| && UpTo(log, last)
    ensures UpTo(Kept(log, last - count), last) && Holds(ring, Kept(log, last - count), last)
    ensures SumRange(Kept(log, last - count), last - |ring|, last) == SumRange(log, last - count, last)
  {
    KeptRange(log, last - count, last - |ring|, last);
    KeptUpTo(log, last - count, last);
    forall i | last - |ring| < i <= last
      ensures Slot(ring, i) == SumAt(Kept(log, last - count), i)
    {
      KeptSum(log, last - count, i);
    }
  }

  /** One turn of the copy loop. */
  lemma CopyOne(ring: seq<real>, log: seq<Rec>, last: int, k: nat, v: real)
    requires k < |ring| && v == SumAt(log, last - k) && CopiedTo(ring, log, last, k)
    ensures CopiedTo(ring[(last - k) % |ring| := v], log, last, k + 1)
  {
    var n := |ring|;
    var next := ring[(last - k) % n := v];
    assert |next| == n;
    forall i | last - n < i <= last
      ensures Slot(next, i) == if i > last - (k + 1) then SumAt(log, i) else 0.0
    {
      if i < last - k {
        SlotsDiffer(i, last - k, n);
        assert Slot(next, i) == Slot(ring, i);
      } else if i > last - k {
        SlotsDiffer(last - k, i, n);
        assert Slot(next, i) == Slot(ring, i);
      }
    }
  }

  // ----- runs of Record without a resize

  /** (firstWrite, lastWrite) after feeding the whole log to a fresh ring of n buckets. */
  function Stamps(n: nat, log: seq<Rec>): (Stamp, Stamp) {
    if log == [] then (Never, Never)
    else
      var (first, last) := Stamps(n, log[..|log| - 1]);
      var b := log[|log| - 1].bucket;
      (NextFirst(first, last, n, b), Later(last, b))
  }

  /** However records arrive, lastWrite is the newest bucket ever recorded and
      firstWrite is a recorded bucket no later than any record still in the window. */
  lemma {:induction false} StampsOfRun(n: nat, log: seq<Rec>)
    requires n > 0 && log != []
    ensures var (first, last) := Stamps(n, log);
            && first.At? && last.At? && first.bucket <= last.bucket && UpTo(log, last.bucket)
            && (exists k :: 0 <= k < |log| && log[k].bucket == first.bucket)
            && (exists k :: 0 <= k < |log| && log[k].bucket == last.bucket)
            && forall k :: 0 <= k < |log| && log[k].bucket > last.bucket - n ==> log[k].bucket >= first.bucket
  {
    var m := |log| - 1;
    assert log[m].bucket == log[m].bucket;
    if m > 0 {
      StampsOfRun(n, log[..m]);
      var (first, last) := Stamps(n, log[..m]);
      var f :| 0 <= f < m && log[..m][f].bucket == first.bucket;
      var l :| 0 <= l < m && log[..m][l].bucket == last.bucket;
      assert log[f].bucket == first.bucket && log[l].bucket == last.bucket;
      forall k | 0 <= k < m
        ensures log[k].bucket <= last.bucket && (log[k].bucket > last.bucket - n ==> log[k].bucket >= first.bucket)
      {
        assert log[k] == log[..m][k];
      }
    }
  }

  /** Record k came a whole window or more after everything before it. */
  predicate OpensStretch(n: nat, log: seq<Rec>, k: nat)
    requires k < |log|
  {
    forall i :: 0 <= i < k ==> log[k].bucket - log[i].bucket >= n
  }

  /** Record k was not a whole window or more before something already there. */
  predicate InTime(n: nat, log: seq<Rec>, k: nat)
    requires k < |log|
  {
    forall i :: 0 <= i < k ==> log[k].bucket + n > log[i].bucket
  }

  /** firstWrite is the earliest bucket recorded in time since writing last resumed after a
      whole window without writes. */
  lemma {:induction false} FirstWriteExactly(n: nat, log: seq<Rec>) returns (s: nat)
    requires n > 0 && log != []
    ensures s < |log| && OpensStretch(n, log, s)
    ensures forall k :: s < k < |log| ==> !OpensStretch(n, log, k)
    ensures Stamps(n, log).0.At?
    ensures forall k :: s <= k < |log| && InTime(n, log, k) ==> Stamps(n, log).0.bucket <= log[k].bucket
    ensures exists k :: s <= k < |log| && InTime(n, log, k) && Stamps(n, log).0.bucket == log[k].bucket
  {
    hide OpensStretch, InTime;
    var m := |log| - 1;
    var before := log[..m];
    LastRecord(n, log);
    if m == 0 {
      s := 0;
    } else {
      var (first, last) := Stamps(n, before);
      if OpensStretch(n, log, m) {
        s := m;
      } else {
        s := FirstWriteExactly(n, before);
        var w :| s <= w < m && InTime(n, before, w) && first.bucket == before[w].bucket;
        assert log[w] == before[w];
        forall k | 0 <= k < m
          ensures log[k] == before[k]
          ensures OpensStretch(n, log, k) <==> OpensStretch(n, before, k)
          ensures InTime(n, log, k) <==> InTime(n, before, k)
        {
          PrefixSame(n, log, k);
        }
      }
    }
  }

  lemma PrefixSame(n: nat, log: seq<Rec>, k: nat)
    requires k < |log| - 1
    ensures log[..|log| - 1][k] == log[k]
    ensures OpensStretch(n, log, k) <==> OpensStretch(n, log[..|log| - 1], k)
    ensures InTime(n, log, k) <==> InTime(n, log[..|log| - 1], k)
  {
    assert forall i :: 0 <= i <= k ==> log[..|log| - 1][i] == log[i];
  }

  /** What the last record does to firstWrite. */
  lemma LastRecord(n: nat, log: seq<Rec>)
    requires n > 0 && log != []
    ensures var m := |log| - 1;
      var (first, last), b := Stamps(n, log[..m]), log[m].bucket;
      && Stamps(n, log).0.At?
      && (m == 0 ==> OpensStretch(n, log, 0) && InTime(n, log, 0))
      && (OpensStretch(n, log, m) ==> InTime(n, log, m) && Stamps(n, log).0 == At(b))
      && (!OpensStretch(n, log, m) ==>
            first.At? && Stamps(n, log).0 == if InTime(n, log, m) && b < first.bucket then At(b) else first)
  {
    var m := |log| - 1;
    if m > 0 {
      StampsOfRun(n, log[..m]);
      var (first, last) := Stamps(n, log[..m]);
      assert forall i :: 0 <= i < m ==> log[..m][i] == log[i];
      var l :| 0 <= l < m && log[..m][l].bucket == last.bucket;
      assert log[l].bucket == last.bucket;
      assert forall i :: 0 <= i < m ==> log[i].bucket <= last.bucket;
    }
  }

  /** The class method keeps that fold: a ring never resized carries exactly these stamps. */
  method FeedAll(recs: seq<Rec>, n: nat) returns (ring: TimedFloat64Buckets)
    requires n > 0
    ensures ring.Valid() && ring.buckets.Length == n && ring.log == recs && fresh(ring) && fresh(ring.buckets)
    ensures (ring.firstWrite, ring.lastWrite) == Stamps(n, recs)
  {
    ring := new TimedFloat64Buckets(n);
    for k := 0 to |recs|
      invariant ring.Valid() && fresh(ring) && fresh(ring.buckets) && ring.buckets.Length == n
      invariant ring.log == recs[..k] && (ring.firstWrite, ring.lastWrite) == Stamps(n, recs[..k])
    {
      assert recs[..k + 1][..k] == recs[..k];
      ring.Record(recs[k].bucket, recs[k].value);
      assert recs[..k + 1] == recs[..k] + [recs[k]];
    }
    assert recs[..|recs|] == recs;
  }

  lemma {:induction false} LastIgnoresWindow(n: nat, m: nat, log: seq<Rec>)
    ensures Stamps(n, log).1 == Stamps(m, log).1
  {
    if log != [] {
      LastIgnoresWindow(n, m, log[..|log| - 1]);
    }
  }

  /** Feeding the same records to a ring of n buckets and then shrinking it, or to a
      fresh ring of m buckets, gives the same slots and the same total. */
  method ShrinkMatchesFresh(recs: seq<Rec>, n: nat, m: nat, now: int)
    returns (shrunk: TimedFloat64Buckets, small: TimedFloat64Buckets)
    requires 0 < m < n && recs != []
    // The data is live when the window shrinks, and no window reaches below the epoch.
    requires Stamps(n, recs).1.At? && now - Stamps(n, recs).1.bucket <= n && Stamps(n, recs).1.bucket + 1 >= m
    ensures shrunk.Valid() && small.Valid()
    ensures fresh(shrunk) && fresh(small) && shrunk.buckets.Length == small.buckets.Length == m
    ensures shrunk.buckets[..] == small.buckets[..] && shrunk.windowTotal == small.windowTotal
    ensures shrunk.lastWrite == small.lastWrite == Stamps(m, recs).1
    ensures shrunk.log == Kept(recs, shrunk.lastWrite.bucket - m) && small.log == recs
    ensures shrunk.firstWrite == At(shrunk.lastWrite.bucket - (n - 1)) && small.firstWrite == Stamps(m, recs).0
  {
    hide SumAt, SumRange, Stamps, Holds, Kept;
    small := FeedAll(recs, m);
    shrunk := FeedAll(recs, n);
    LastIgnoresWindow(n, m, recs);
    StampsOfRun(n, recs);
    shrunk.ResizeWindow(m, now);
    var last := shrunk.lastWrite.bucket;
    KeptRingUnique(shrunk.buckets[..], small.buckets[..], recs, last);
  }

  lemma KeptRingUnique(a: seq<real>, b: seq<real>, log: seq<Rec>, last: int)
    requires |a| == |b| && Holds(a, Kept(log, last - |a|), last) && Holds(b, log, last)
    ensures a == b && SumRange(Kept(log, last - |a|), last - |a|, last) == SumRange(log, last - |a|, last)
  {
    hide Kept, SumAt, SumRange, Holds, Slot;
    forall i | last - |a| < i <= last
      ensures SumAt(Kept(log, last - |a|), i) == SumAt(log, i)
    {
      KeptSum(log, last - |a|, i);
    }
    HoldsUnique(a, b, Kept(log, last - |a|), log, last);
    KeptRange(log, last - |a|, last - |a|, last);
  }

  // ----- exponentially weighted average

  /** The weight s(1-s)^k of a value k buckets old. */
  function Weight(s: real, k: nat): real {
    s * Pow(1.0 - s, k)
  }

  lemma WeightNext(s: real, k: nat)
    ensures Weight(s, k + 1) == Weight(s, k) * (1.0 - s)
  {
    var p, q := Pow(1.0 - s, k), 1.0 - s;
    assert Pow(1.0 - s, k + 1) == q * p;
    MulShuffle(s, p, q);
  }

  lemma MulShuffle(a: real, b: real, c: real)
    ensures a * (c * b) == (a * b) * c
  {
  }

  /** The sum over k < to of the weight of age k times the value recorded for bucket top - k. */
  function WeightedSum(log: seq<Rec>, s: real, top: int, to: nat): real {
    if to == 0 then 0.0
    else WeightedSum(log, s, top, to - 1) + SumAt(log, top - (to - 1)) * Weight(s, to - 1)
  }

  lemma {:induction false} WeightedSumOfZeros(log: seq<Rec>, s: real, last: int, top: int, to: nat)
    requires UpTo(log, last) && to <= top - last
    ensures WeightedSum(log, s, top, to) == 0.0
  {
    if to > 0 {
      WeightedSumOfZeros(log, s, last, top, to - 1);
      SumAtBeyond(log, last, top - (to - 1));
    }
  }

  lemma {:induction false} WeightedSumOfNothing(s: real, top: int, to: nat)
    ensures WeightedSum([], s, top, to) == 0.0
  {
    if to > 0 {
      WeightedSumOfNothing(s, top, to - 1);
    }
  }

  /** One turn of the weighting loop. */
  lemma WeightStep(log: seq<Rec>, s: real, top: int, k: nat, multiplier: real, v: real)
    requires multiplier == Weight(s, k) && v == SumAt(log, top - k)
    ensures WeightedSum(log, s, top, k + 1) == WeightedSum(log, s, top, k) + v * multiplier
    ensures multiplier * (1.0 - s) == Weight(s, k + 1)
  {
    WeightNext(s, k);
  }

  class WeightedFloat64Buckets {
    const ring: TimedFloat64Buckets
    var smoothingCoeff: real

    /** The weights of the whole window sum to almost one. */
    ghost predicate Valid()
      reads this, ring, ring.buckets
    {
      ring.Valid() && WEIGHT_PRECISION <= Weights(smoothingCoeff, ring.buckets.Length) < 1.0
    }

    constructor (ring: TimedFloat64Buckets, root: real)
      requires ring.Valid() && IsRoot(root, ring.buckets.Length)
      ensures Valid() && this.ring == ring && smoothingCoeff == SmoothingCoeff(root)
    {
      this.ring := ring;
      smoothingCoeff := SmoothingCoeff(root);
      WeightsMeetPrecision(ring.buckets.Length, root);
    }

    /** Resizes the ring and recomputes the coefficient, for an unchanged size too. */
    method ResizeWindow(m: nat, now: int, root: real)
      requires Valid() && m > 0 && IsRoot(root, m)
      requires ring.lastWrite.At? ==> ring.lastWrite.bucket + 1 >= Min(m, ring.buckets.Length)
      modifies this, ring
      ensures Valid() && ring.buckets.Length == m && smoothingCoeff == SmoothingCoeff(root)
      ensures ring.lastWrite == old(ring.lastWrite)
      ensures m == old(ring.buckets.Length) ==> ring.log == old(ring.log)
      ensures m != old(ring.buckets.Length) ==>
                ring.log == if ring.lastWrite.At? && now - ring.lastWrite.bucket <= old(ring.buckets.Length)
                            then Kept(old(ring.log), ring.lastWrite.bucket - Min(m, old(ring.buckets.Length)))
                            else []
    {
      ring.ResizeWindow(m, now);
      smoothingCoeff := SmoothingCoeff(root);
      WeightsMeetPrecision(m, root);
    }

    /** The exponentially weighted average of the whole window ending at max(now, last):
        skipping the trailing empty buckets changes nothing. */
    method WindowAverage(now: int) returns (avg: real)
      requires Valid()
      ensures ring.lastWrite.Never? ==> avg == 0.0
      ensures ring.lastWrite.At? ==>
                avg == WeightedSum(ring.log, smoothingCoeff, Max(now, ring.lastWrite.bucket), ring.buckets.Length)
    {
      var s, n := smoothingCoeff, ring.buckets.Length;
      if ring.IsEmpty(now) {
        if ring.lastWrite.At? {
          WeightedSumOfZeros(ring.log, s, ring.lastWrite.bucket, now, n);
        }
        return 0.0;
      }
      var last := ring.lastWrite.bucket;
      var multiplier := s;
      var numB := n;
      if now > last {
        var numZ := now - last;
        multiplier := multiplier * Pow(1.0 - s, numZ);
        numB := numB - numZ;
        WeightedSumOfZeros(ring.log, s, last, now, numZ);
      }
      avg := Accumulate(multiplier, numB, last, n - numB);
    }

    /** The loop over the written buckets, newest first, after k0 trailing empty ones. */
    method Accumulate(first: real, numB: nat, last: int, ghost k0: nat) returns (ret: real)
      requires ring.buckets.Length == numB + k0 && Holds(ring.buckets[..], ring.log, last)
      requires first == Weight(smoothingCoeff, k0)
      requires WeightedSum(ring.log, smoothingCoeff, last + k0, k0) == 0.0
      ensures ret == WeightedSum(ring.log, smoothingCoeff, last + k0, numB + k0)
    {
      hide Weight, WeightedSum, SumAt;
      var n := ring.buckets.Length;
      var startIdx := last + n;
      var multiplier := first;
      ret := 0.0;
      for i := 0 to numB
        invariant multiplier == Weight(smoothingCoeff, k0 + i)
        invariant ret == WeightedSum(ring.log, smoothingCoeff, last + k0, k0 + i)
      {
        var v := ring.buckets[(startIdx - i) % n];
        assert v == SumAt(ring.log, last + k0 - (k0 + i)) by {
          SlotOfNext(last - i, n);
          assert v == Slot(ring.buckets[..], last - i);
        }
        WeightStep(ring.log, smoothingCoeff, last + k0, k0 + i, multiplier, v);
        ret := ret + v * multiplier;
        multiplier := multiplier * (1.0 - smoothingCoeff);
      }
    }
  }

  const WEIGHT_PRECISION: real := 0.9999

  const MIN_EXPONENT: real := 0.2

  /** The n-th root of 1 - weightPrecision. */
  ghost predicate IsRoot(root: real, n: nat) {
    0.0 < root < 1.0 && Pow(root, n) == 1.0 - WEIGHT_PRECISION
  }

  /** computeSmoothingCoeff, given the n-th root of 1 - weightPrecision. */
  function SmoothingCoeff(root: real): real {
    if 1.0 - root > MIN_EXPONENT then 1.0 - root else MIN_EXPONENT
  }

  lemma {:induction false} PowMono(a: real, b: real, k: nat)
    requires 0.0 <= a <= b
    ensures 0.0 <= Pow(a, k) <= Pow(b, k)
  {
    if k > 0 {
      PowMono(a, b, k - 1);
      var x, y := Pow(a, k - 1), Pow(b, k - 1);
      assert a * x <= b * x && b * x <= b * y;
    }
  }

  lemma {:induction false} PowPositive(a: real, k: nat)
    requires a > 0.0
    ensures Pow(a, k) > 0.0
  {
    if k > 0 {
      PowPositive(a, k - 1);
    }
  }

  /** The sum of the weights s(1-s)^k for k < n. */
  function Weights(s: real, n: nat): real {
    if n == 0 then 0.0 else Weights(s, n - 1) + Weight(s, n - 1)
  }

  lemma {:induction false} WeightsClosedForm(s: real, n: nat)
    ensures Weights(s, n) == 1.0 - Pow(1.0 - s, n)
  {
    if n > 0 {
      WeightsClosedForm(s, n - 1);
    }
  }

  /** Whatever the window, the computed coefficient's weights sum to at least
      weightPrecision and stay below one. */
  lemma WeightsMeetPrecision(n: nat, root: real)
    requires n > 0 && IsRoot(root, n)
    ensures WEIGHT_PRECISION <= Weights(SmoothingCoeff(root), n) < 1.0
  {
    var s := SmoothingCoeff(root);
    WeightsClosedForm(s, n);
    PowMono(1.0 - s, root, n);
    PowPositive(1.0 - s, n);
  }

  lemma {:induction false} PowStrict(a: real, b: real, k: nat)
    requires 0.0 <= a < b && k > 0
    ensures Pow(a, k) < Pow(b, k)
  {
    if k > 1 {
      PowStrict(a, b, k - 1);
      PowMono(a, b, k - 1);
      var x, y := Pow(a, k - 1), Pow(b, k - 1);
      assert a * x <= a * y && a * y < b * y;
    } else {
      assert Pow(a, 1) == a * Pow(a, 0) && Pow(b, 1) == b * Pow(b, 0);
    }
  }

  /** The computed coefficient is the least one, from 0.2 on, whose weights reach 0.9999. */
  lemma CoefficientIsLeast(n: nat, root: real, s: real)
    requires n > 0 && IsRoot(root, n) && s <= 1.0
    ensures SmoothingCoeff(root) >= 0.2 && Weights(SmoothingCoeff(root), n) >= 0.9999
    ensures 0.2 <= s && Weights(s, n) >= 0.9999 ==> SmoothingCoeff(root) <= s
  {
    WeightsMeetPrecision(n, root);
    WeightsClosedForm(s, n);
    if 0.2 <= s < SmoothingCoeff(root) {
      PowStrict(root, 1.0 - s, n);
    }
  }
}

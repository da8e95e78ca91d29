/** What resizing does to averages.  A resize with live data sets the first write back to
    the oldest bucket the old window could hold, so the divisor forgets how much of the
    window was really covered: slots and total are kept, the average need not be. */
module Resizing {
  import opened Common
  import opened Buckets

  /** The buckets of a window of m that are not yet outdated. */
  function Current(last: int, m: nat, at: int): int { m - Max(0, at - last) }

  /** The buckets from the first write to the last. */
  function Covered(first: int, last: int): int { last - first + 1 }

  // ----- divisors

  /** A shrunk ring divides by every current bucket, and a fresh ring of the new size by
      those it covers: the same if and only if it covers them all. */
  lemma ShrunkDivisor(first: int, last: int, n: nat, m: nat, at: int)
    requires first <= last && 0 < m < n && at - last < m
    ensures Divisor(At(last - (n - 1)), last, m, at) == Current(last, m, at)
    ensures Divisor(At(first), last, m, at) == Min(Covered(first, last), Current(last, m, at))
    ensures Divisor(At(last - (n - 1)), last, m, at) == Divisor(At(first), last, m, at)
       <==> Covered(first, last) >= Current(last, m, at)
  {
  }

  /** Growing makes the divisor larger than it was, unless the old window was covered whole
      and is still current whole. */
  lemma GrownDivisor(first: int, last: int, n: nat, m: nat, at: int)
    requires first <= last && 0 < n < m && at - last < n
    ensures Divisor(At(last - (n - 1)), last, m, at) == Min(n, Current(last, m, at))
    ensures Divisor(At(last - (n - 1)), last, m, at) >= Divisor(At(first), last, n, at)
    ensures Divisor(At(last - (n - 1)), last, m, at) == Divisor(At(first), last, n, at)
       <==> at <= last && Covered(first, last) >= n
  {
  }

  /** Against a fresh ring of the larger size: the same divisor if and only if that ring
      covers just the old window, or both cover all that is current. */
  lemma GrownDivisorFresh(first: int, last: int, n: nat, m: nat, at: int)
    requires first <= last && 0 < n < m && at - last < m
    ensures Divisor(At(last - (n - 1)), last, m, at) == Divisor(At(first), last, m, at)
       <==> || Covered(first, last) == n
            || (Covered(first, last) >= Current(last, m, at) && n >= Current(last, m, at))
  {
  }

  /** Two averages of one sum agree if and only if the divisors do or there is nothing to divide. */
  lemma AveragesAgree(sum: real, a: int, b: int)
    requires a >= 1 && b >= 1
    ensures sum / a as real == sum / b as real <==> a == b || sum == 0.0
  {
    var x, y := sum / a as real, sum / b as real;
    assert x * a as real == sum && y * b as real == sum;
    if x == y && a != b {
      assert x * (a - b) as real == 0.0;
    }
  }

  // ----- sums

  lemma {:induction false} KeptAbove(log: seq<Rec>, lo: int, from: int, hi: int)
    requires lo <= from <= hi
    ensures SumRange(Kept(log, lo), from, hi) == SumRange(log, from, hi)
    decreases hi - from
  {
    if from < hi {
      KeptAbove(log, lo, from, hi - 1);
      KeptSum(log, lo, hi);
    }
  }

  lemma {:induction false} NothingAt(log: seq<Rec>, i: int)
    requires forall k :: 0 <= k < |log| ==> log[k].bucket != i
    ensures SumAt(log, i) == 0.0
  {
    if log != [] {
      NothingAt(log[..|log| - 1], i);
    }
  }

  /** Cutting off what nothing was recorded for changes no sum. */
  lemma {:induction false} KeptAll(log: seq<Rec>, lo: int, from: int, hi: int)
    requires from <= hi && forall k :: 0 <= k < |log| && log[k].bucket > from ==> log[k].bucket > lo
    ensures SumRange(Kept(log, lo), from, hi) == SumRange(log, from, hi)
    decreases hi - from
  {
    if from < hi {
      KeptAll(log, lo, from, hi - 1);
      KeptSum(log, lo, hi);
      if hi <= lo {
        NothingAt(log, hi);
      }
    }
  }

  // ----- averages

  /** One ring fed the records and shrunk, one of the smaller size fed the same: the sums
      are one, and the averages agree if the fresh ring covers all current buckets.  Before
      rounding they agree if and only if it does, or the sum is zero. */
  method ShrunkAverages(recs: seq<Rec>, n: nat, m: nat, now: int, at: int) returns (shrunk: real, small: real)
    requires 0 < m < n && recs != []
    requires Stamps(n, recs).1.At? && now - Stamps(n, recs).1.bucket <= n && Stamps(n, recs).1.bucket + 1 >= m
    ensures var (first, last) := Stamps(m, recs);
      && first.At? && last.At?
      && (at - last.bucket >= m ==> shrunk == small == 0.0)
      && (at - last.bucket < m ==>
            var sum := SumRange(recs, Max(at, last.bucket) - m, last.bucket);
            var covered, current := Covered(first.bucket, last.bucket), Current(last.bucket, m, at);
            && covered >= 1 && current >= 1
            && shrunk == RoundToSixDigits(sum / current as real)
            && small == RoundToSixDigits(sum / Min(covered, current) as real)
            && (covered >= current ==> shrunk == small)
            && (sum / current as real == sum / Min(covered, current) as real <==> covered >= current || sum == 0.0))
  {
    hide SumRange, Stamps, Kept, RoundToSixDigits;
    var a, b := ShrinkMatchesFresh(recs, n, m, now);
    StampsOfRun(m, recs);
    shrunk := a.WindowAverage(at);
    small := b.WindowAverage(at);
    var (first, last) := Stamps(m, recs);
    if at - last.bucket < m {
      ShrunkDivisor(first.bucket, last.bucket, n, m, at);
      KeptAbove(recs, last.bucket - m, Max(at, last.bucket) - m, last.bucket);
      AveragesAgree(SumRange(recs, Max(at, last.bucket) - m, last.bucket), Current(last.bucket, m, at),
                    Min(Covered(first.bucket, last.bucket), Current(last.bucket, m, at)));
    }
  }

  /** A ring before and after growing, and a fresh one of the larger size.  At the last
      write the sum is the old one, so before rounding growing keeps the average if and only
      if the old window was covered whole or the sum is zero. */
  method GrownAverages(recs: seq<Rec>, n: nat, m: nat, now: int, at: int)
    returns (before: real, grown: real, big: real)
    requires 0 < n < m && recs != []
    requires Stamps(n, recs).1.At? && now - Stamps(n, recs).1.bucket <= n && Stamps(n, recs).1.bucket + 1 >= n
    ensures var (first, last) := Stamps(n, recs);
      && first.At? && last.At? && first.bucket <= last.bucket
      && (at <= last.bucket ==>
            var sum := SumRange(recs, last.bucket - n, last.bucket);
            var covered := Min(Covered(first.bucket, last.bucket), n);
            && before == RoundToSixDigits(sum / covered as real)
            && grown == RoundToSixDigits(sum / n as real)
            && (sum / n as real == sum / covered as real <==> Covered(first.bucket, last.bucket) >= n || sum == 0.0))
    ensures var (first, last) := Stamps(m, recs);
      && first.At? && last.At? && first.bucket <= last.bucket
      && (at - last.bucket < m ==>
            var covered, current := Covered(first.bucket, last.bucket), Current(last.bucket, m, at);
            var from := Max(at, last.bucket) - m;
            && current >= 1
            && grown == RoundToSixDigits(
                          SumRange(Kept(recs, last.bucket - n), from, last.bucket) / Min(n, current) as real)
            && big == RoundToSixDigits(SumRange(recs, from, last.bucket) / Min(covered, current) as real)
            && (covered == n || (current <= covered && current <= n) ==> grown == big))
  {
    hide SumRange, Stamps, Kept, RoundToSixDigits, Divisor, Holds, UpTo;
    var ring := FeedAll(recs, n);
    var large := FeedAll(recs, m);
    StampsOfRun(n, recs);
    StampsOfRun(m, recs);
    LastIgnoresWindow(n, m, recs);
    before := ring.WindowAverage(at);
    ring.ResizeWindow(m, now);
    grown := ring.WindowAverage(at);
    big := large.WindowAverage(at);
    var (first, last) := Stamps(n, recs);
    var (firstM, _) := Stamps(m, recs);
    if at <= last.bucket {
      GrownAtLastWrite(recs, n, m, at, first.bucket, last.bucket);
    }
    if at - last.bucket < m {
      GrownAgainstFresh(recs, n, m, at, firstM.bucket, last.bucket);
    }
  }

  lemma GrownAtLastWrite(recs: seq<Rec>, n: nat, m: nat, at: int, first: int, last: int)
    requires first <= last && 0 < n < m && at <= last
    ensures SumRange(Kept(recs, last - n), last - m, last) == SumRange(recs, last - n, last)
    ensures Divisor(At(last - (n - 1)), last, m, at) == n
    ensures Divisor(At(first), last, n, at) == Min(Covered(first, last), n) >= 1
    ensures var sum, covered := SumRange(recs, last - n, last), Min(Covered(first, last), n);
      sum / n as real == sum / covered as real <==> Covered(first, last) >= n || sum == 0.0
  {
    hide SumRange, Kept;
    KeptRange(recs, last - n, last - m, last);
    AveragesAgree(SumRange(recs, last - n, last), n, Min(Covered(first, last), n));
  }

  lemma GrownAgainstFresh(recs: seq<Rec>, n: nat, m: nat, at: int, first: int, last: int)
    requires first <= last && 0 < n < m && at - last < m
    requires forall k :: 0 <= k < |recs| && recs[k].bucket > last - m ==> recs[k].bucket >= first
    ensures Divisor(At(last - (n - 1)), last, m, at) == Min(n, Current(last, m, at))
    ensures Divisor(At(first), last, m, at) == Min(Covered(first, last), Current(last, m, at))
    ensures Covered(first, last) <= n || Current(last, m, at) <= n ==>
              SumRange(Kept(recs, last - n), Max(at, last) - m, last) == SumRange(recs, Max(at, last) - m, last)
  {
    hide SumRange, Kept;
    if Current(last, m, at) <= n {
      KeptAbove(recs, last - n, Max(at, last) - m, last);
    } else if Covered(first, last) <= n {
      KeptAll(recs, last - n, Max(at, last) - m, last);
    }
  }

  // ----- one record is enough

  const ONE_RECORD: seq<Rec> := [Rec(100, 10.0)]

  lemma SumOfOneRecord(lo: int)
    requires 90 <= lo < 100
    ensures SumRange(ONE_RECORD, lo, 100) == 10.0
  {
    assert SumAt(ONE_RECORD, 100) == 10.0 by {
      assert ONE_RECORD[..0] == [];
    }
    SumsBelow(lo, 99);
  }

  lemma {:induction false} SumsBelow(lo: int, hi: int)
    requires lo <= hi < 100
    ensures SumRange(ONE_RECORD, lo, hi) == 0.0
    decreases hi - lo
  {
    if lo < hi {
      SumsBelow(lo, hi - 1);
      NothingAt(ONE_RECORD, hi);
    }
  }

  /** The stamps, divisors and sums at that input. */
  lemma OneRecordFacts()
    ensures Stamps(5, ONE_RECORD) == Stamps(10, ONE_RECORD) == Stamps(20, ONE_RECORD) == (At(100), At(100))
    ensures SumRange(ONE_RECORD, 90, 100) == SumRange(ONE_RECORD, 95, 100) == 10.0
    ensures RoundToSixDigits(10.0 / 1.0) == 10.0
    ensures RoundToSixDigits(10.0 / 5.0) == 2.0 && RoundToSixDigits(10.0 / 10.0) == 1.0
  {
    assert ONE_RECORD[..0] == [];
    SumOfOneRecord(90);
    SumOfOneRecord(95);
  }

  /** A record of 10 in a ring of ten buckets, shrunk to five, averages 2, where a fresh
      ring of five says 10. */
  method OneRecordShrunk() returns (shrunk: real, small: real)
    ensures shrunk == 2.0 && small == 10.0
  {
    hide SumRange, Stamps, RoundToSixDigits;
    OneRecordFacts();
    shrunk, small := ShrunkAverages(ONE_RECORD, 10, 5, 100, 100);
  }

  /** Grown to twenty, its average goes from 10 to 1. */
  method OneRecordGrown() returns (before: real, grown: real)
    ensures before == 10.0 && grown == 1.0
  {
    hide SumRange, Stamps, RoundToSixDigits;
    OneRecordFacts();
    var big;
    before, grown, big := GrownAverages(ONE_RECORD, 10, 20, 100, 100);
  }
}

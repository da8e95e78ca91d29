/** Counting the members of a group of threads that are at some place. */
module Counting {

  function Count<T>(p: T -> bool, ts: seq<T>): nat {
    if ts == [] then 0 else (if p(ts[0]) then 1 else 0) + Count(p, ts[1..])
  }

  /** One thread moves. */
  lemma {:induction false} CountUpdate<T>(p: T -> bool, ts: seq<T>, i: nat, t: T)
    requires i < |ts|
    ensures Count(p, ts[i := t]) == Count(p, ts) - (if p(ts[i]) then 1 else 0) + (if p(t) then 1 else 0)
  {
    if i == 0 {
      assert ts[i := t][1..] == ts[1..];
    } else {
      assert ts[i := t][1..] == ts[1..][i - 1 := t];
      CountUpdate(p, ts[1..], i - 1, t);
    }
  }

  lemma {:induction false} CountBound<T>(p: T -> bool, ts: seq<T>)
    ensures Count(p, ts) <= |ts|
    ensures (exists i :: 0 <= i < |ts| && !p(ts[i])) ==> Count(p, ts) < |ts|
    ensures (forall i :: 0 <= i < |ts| ==> p(ts[i])) ==> Count(p, ts) == |ts|
    ensures (forall i :: 0 <= i < |ts| ==> !p(ts[i])) ==> Count(p, ts) == 0
    ensures (exists i :: 0 <= i < |ts| && p(ts[i])) ==> Count(p, ts) > 0
  {
    if ts != [] {
      CountBound(p, ts[1..]);
      if i :| 0 <= i < |ts| && !p(ts[i]) {
        assert i == 0 || ts[i] == ts[1..][i - 1];
      }
      if i :| 0 <= i < |ts| && p(ts[i]) {
        assert i == 0 || ts[i] == ts[1..][i - 1];
      }
    }
  }
}

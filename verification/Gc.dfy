/** Garbage collection of a configuration's revisions: active ones are filtered out in
    place, the rest sorted oldest first, stale ones deleted, then the oldest beyond the
    maximum, never going below the minimum. */
module Gc {
  import opened Common
  import opened Revisions

  const DISABLED: int := -1

  datatype Config = Config(retainSinceCreate: int, retainSinceActive: int, min: nat, max: int) {
    /** What the config map parser lets through. */
    predicate Valid() { max >= DISABLED && (max >= 0 ==> min <= max) }

    predicate NothingEnabled() {
      max == DISABLED && retainSinceCreate == DISABLED && retainSinceActive == DISABLED
    }
  }

  function Lower(c: char): char {
    if 'A' <= c <= 'Z' then ((c as int) + 32) as char else c
  }

  /** strings.EqualFold against a lower-case ASCII word. */
  predicate EqualFold(s: string, word: string) {
    |s| == |word| && forall i :: 0 <= i < |s| ==> Lower(s[i]) == word[i]
  }

  predicate IsActive(r: Revision, latestReady: string) {
    latestReady == r.name || EqualFold(r.preserved, "true") || r.meta.state != RESERVE
  }

  function LastActive(r: Revision): int {
    if r.meta.modified.Some? then r.meta.modified.value else r.created
  }

  predicate IsStale(cfg: Config, r: Revision, now: int) {
    && !(cfg.retainSinceCreate == DISABLED && cfg.retainSinceActive == DISABLED)
    && !(cfg.retainSinceCreate != DISABLED && now - r.created < cfg.retainSinceCreate)
    && !(cfg.retainSinceActive != DISABLED && now - LastActive(r) < cfg.retainSinceActive)
  }

  // ----- the tests in their own words

  /** "true" in any letter case. */
  predicate SaysTrue(s: string) {
    |s| == 4 && s[0] in {'t', 'T'} && s[1] in {'r', 'R'} && s[2] in {'u', 'U'} && s[3] in {'e', 'E'}
  }

  lemma FoldedTrue(s: string)
    ensures EqualFold(s, "true") <==> SaysTrue(s)
  {
    if |s| == 4 {
      LowerIs(s[0], 't');
      LowerIs(s[1], 'r');
      LowerIs(s[2], 'u');
      LowerIs(s[3], 'e');
      var word := "true";
      assert word[0] == 't' && word[1] == 'r' && word[2] == 'u' && word[3] == 'e';
    }
  }

  lemma LowerIs(c: char, low: char)
    requires 'a' <= low <= 'z'
    ensures Lower(c) == low <==> c == low || c == ((low as int) - 32) as char
  {
  }

  /** What keeps a revision: being the latest ready one, a preserved annotation that says true,
      or any routing state but reserve. */
  lemma ActiveExactly(r: Revision, latestReady: string)
    ensures IsActive(r, latestReady) <==> r.name == latestReady || SaysTrue(r.preserved) || r.meta.state != "reserve"
  {
    hide EqualFold;
    FoldedTrue(r.preserved);
  }

  /** Stale means that a retention time is set, and that each one set has passed: since the
      creation, and since the routing state was last changed, or since the creation if it
      never was.  Minus one means not set. */
  lemma StaleExactly(cfg: Config, r: Revision, now: int)
    ensures IsStale(cfg, r, now) <==>
              && (cfg.retainSinceCreate != -1 || cfg.retainSinceActive != -1)
              && (cfg.retainSinceCreate != -1 ==> now >= r.created + cfg.retainSinceCreate)
              && (cfg.retainSinceActive != -1 ==>
                    now >= (if r.meta.modified.Some? then r.meta.modified.value else r.created) + cfg.retainSinceActive)
  {
  }

  /** What is stale stays stale. */
  lemma StaleStays(cfg: Config, r: Revision, now: int, later: int)
    requires IsStale(cfg, r, now) && now <= later
    ensures IsStale(cfg, r, later)
  {
  }

  // ----- the in-place filter

  function NonActive(revs: seq<Revision>, latestReady: string): seq<Revision> {
    if revs == [] then []
    else
      var n := |revs| - 1;
      NonActive(revs[..n], latestReady) + (if IsActive(revs[n], latestReady) then [] else [revs[n]])
  }

  lemma {:induction false} NonActiveCount(revs: seq<Revision>, latestReady: string, r: Revision)
    ensures multiset(NonActive(revs, latestReady))[r] == if IsActive(r, latestReady) then 0 else multiset(revs)[r]
  {
    if revs != [] {
      var n := |revs| - 1;
      NonActiveCount(revs[..n], latestReady, r);
      assert revs == revs[..n] + [revs[n]];
    }
  }

  /** The multiset of the non-active members, told by multiplicities. */
  ghost predicate SameNonActive(a: seq<Revision>, b: seq<Revision>, latestReady: string) {
    forall r :: !IsActive(r, latestReady) ==> multiset(a)[r] == multiset(b)[r]
  }

  lemma SameNonActiveLaws(a: seq<Revision>, b: seq<Revision>, c: seq<Revision>, latestReady: string)
    ensures SameNonActive(a, a, latestReady)
    ensures SameNonActive(a, b, latestReady) && SameNonActive(b, c, latestReady) ==> SameNonActive(a, c, latestReady)
  {
  }

  /** Overwriting a member by the last one and dropping the last removes just that member. */
  lemma DropMember(revs: seq<Revision>, i: nat)
    requires i < |revs|
    ensures multiset(revs[i := revs[|revs| - 1]][..|revs| - 1]) + multiset{revs[i]} == multiset(revs)
  {
    var n := |revs| - 1;
    var moved := revs[i := revs[n]];
    assert revs == revs[..n] + [revs[n]];
    assert moved == moved[..n] + [moved[n]];
    assert multiset(moved) == multiset(revs) - multiset{revs[i]} + multiset{revs[n]};
  }

  lemma DropOne(revs: seq<Revision>, i: nat, latestReady: string)
    requires i < |revs| && IsActive(revs[i], latestReady)
    ensures SameNonActive(revs[i := revs[|revs| - 1]][..|revs| - 1], revs, latestReady)
  {
    hide IsActive;
    DropMember(revs, i);
    var after := revs[i := revs[|revs| - 1]][..|revs| - 1];
    forall r | !IsActive(r, latestReady)
      ensures multiset(after)[r] == multiset(revs)[r]
    {
      assert r != revs[i];
      assert (multiset(after) + multiset{revs[i]})[r] == multiset(after)[r];
    }
  }

  /** nonactiveRevisions: exactly the multiset of non-active revisions ends up in front. */
  method NonactiveRevisions(revs: array<Revision>, latestReady: string) returns (swap: nat)
    modifies revs
    ensures swap <= revs.Length
    ensures multiset(revs[..swap]) == multiset(NonActive(old(revs[..]), latestReady))
  {
    hide IsActive, NonActive, SameNonActive;
    swap := revs.Length;
    var i := 0;
    assert revs[..swap] == revs[..];
    SameNonActiveLaws(revs[..], revs[..], revs[..], latestReady);
    while i < swap
      invariant 0 <= i <= swap <= revs.Length
      invariant forall k :: 0 <= k < i ==> !IsActive(revs[k], latestReady)
      invariant SameNonActive(revs[..swap], old(revs[..]), latestReady)
      decreases swap - i
    {
      if IsActive(revs[i], latestReady) {
        ghost var before := revs[..swap];
        DropOne(before, i, latestReady);
        swap := swap - 1;
        revs[i] := revs[swap];
        assert revs[..swap] == before[i := before[swap]][..swap];
        SameNonActiveLaws(revs[..swap], before, old(revs[..]), latestReady);
      } else {
        i := i + 1;
      }
    }
    SameMultiset(revs[..swap], old(revs[..]), latestReady);
  }

  lemma SameMultiset(a: seq<Revision>, b: seq<Revision>, latestReady: string)
    requires SameNonActive(a, b, latestReady) && forall k :: 0 <= k < |a| ==> !IsActive(a[k], latestReady)
    ensures multiset(a) == multiset(NonActive(b, latestReady))
  {
    forall r
      ensures multiset(a)[r] == multiset(NonActive(b, latestReady))[r]
    {
      NonActiveCount(b, latestReady, r);
      if IsActive(r, latestReady) {
        assert r !in a;
      }
    }
  }

  // ----- collection

  /** A possible outcome of sort.Slice by last active time; equal times may end up in any order. */
  ghost predicate SortedBy(order: seq<Revision>, revs: seq<Revision>) {
    && multiset(order) == multiset(revs)
    && forall i, j :: 0 <= i < j < |order| ==> LastActive(order[i]) <= LastActive(order[j])
  }

  /** The stale positions among the first n. */
  function StaleIn(cfg: Config, order: seq<Revision>, now: int, n: nat): set<nat>
    requires n <= |order|
  {
    set i: nat | i < n && IsStale(cfg, order[i], now)
  }

  /** What a collection keeps and deletes, by position in the sorted list of non-active
      revisions: how many go, and that within the stale and within the rest the oldest go
      first and the stale before the rest. */
  ghost predicate Collected(cfg: Config, order: seq<Revision>, now: int, gone: set<nat>) {
    var count, stale := |order|, |StaleIn(cfg, order, now, |order|)|;
    && (forall d :: d in gone ==> d < count)
    && |gone| == (if count <= cfg.min || cfg.NothingEnabled() then 0
                  else if stale >= count - cfg.min then count - cfg.min
                  else if cfg.max >= 0 && count - stale > cfg.max then count - cfg.max
                  else stale)
    && (forall d, k :: d in gone && 0 <= k < count && k !in gone ==>
          && (IsStale(cfg, order[d], now) == IsStale(cfg, order[k], now) ==> d < k)
          && (IsStale(cfg, order[k], now) ==> IsStale(cfg, order[d], now)))
  }

  /** The bounds the configuration promises, from the description of a collection. */
  lemma CollectionBounds(cfg: Config, order: seq<Revision>, now: int, gone: set<nat>)
    requires cfg.Valid() && Collected(cfg, order, now, gone)
    requires forall i, j :: 0 <= i < j < |order| ==> LastActive(order[i]) <= LastActive(order[j])
    ensures |order| - |gone| >= Min(|order|, cfg.min)
    ensures cfg.max >= 0 ==> |order| - |gone| <= cfg.max
    ensures forall d, k :: d in gone && 0 <= k < |order| && k !in gone
                           && !IsStale(cfg, order[d], now) && !IsStale(cfg, order[k], now) ==>
              LastActive(order[d]) <= LastActive(order[k])
  {
  }

  /** What a collection has to do: nothing when everything is disabled; all that is stale
      unless only the minimum is left; anything else only to get down to the maximum, and only
      once nothing stale is left. */
  lemma CollectionExactly(cfg: Config, order: seq<Revision>, now: int, gone: set<nat>)
    requires cfg.Valid() && Collected(cfg, order, now, gone)
    ensures cfg.max == -1 && cfg.retainSinceCreate == -1 && cfg.retainSinceActive == -1 ==> gone == {}
    ensures forall k :: 0 <= k < |order| && k !in gone && IsStale(cfg, order[k], now) ==>
              |order| - |gone| == Min(|order|, cfg.min)
    ensures forall d :: d in gone && !IsStale(cfg, order[d], now) ==>
              && cfg.max >= 0 && |order| - |gone| == cfg.max
              && forall k :: 0 <= k < |order| && IsStale(cfg, order[k], now) ==> k in gone
  {
    hide IsStale;
    var stale := StaleIn(cfg, order, now, |order|);
    forall k | 0 <= k < |order| && k !in gone && IsStale(cfg, order[k], now)
      ensures |order| - |gone| == Min(|order|, cfg.min)
    {
      assert k in stale;
      StaleExactly(cfg, order[k], now);
      forall d | d in gone
        ensures d in stale - {k}
      {
        assert IsStale(cfg, order[d], now);
      }
      SubsetSize(gone, stale - {k});
      WithinOrder(cfg, order, now);
    }
    forall d | d in gone && !IsStale(cfg, order[d], now)
      ensures cfg.max >= 0 && |order| - |gone| == cfg.max
      ensures forall k :: 0 <= k < |order| && IsStale(cfg, order[k], now) ==> k in gone
    {
      assert forall k :: 0 <= k < |order| && IsStale(cfg, order[k], now) ==> k in gone;
      assert forall k :: k in stale ==> k in gone - {d};
      SubsetSize(stale, gone - {d});
    }
  }

  lemma WithinOrder(cfg: Config, order: seq<Revision>, now: int)
    ensures |StaleIn(cfg, order, now, |order|)| <= |order|
  {
    SubsetSize(StaleIn(cfg, order, now, |order|), Upto(|order|));
  }

  /** The first loop: stale revisions are deleted and set to nil, oldest first, until
      maxIdx of them are gone. */
  method DeleteStale(cfg: Config, slots: array<Option<Revision>>, now: int, maxIdx: nat, ghost order: seq<Revision>)
    returns (staleCount: nat, gone: set<nat>, stopped: bool)
    requires slots.Length == |order| && maxIdx > 0
    requires forall i :: 0 <= i < |order| ==> slots[i] == Some(order[i])
    modifies slots
    ensures staleCount == |gone| && stopped == (staleCount >= maxIdx)
    ensures gone <= StaleIn(cfg, order, now, |order|)
    ensures !stopped ==> gone == StaleIn(cfg, order, now, |order|)
    ensures stopped ==> |gone| == maxIdx
    ensures forall d, k :: d in gone && 0 <= k < |order| && IsStale(cfg, order[k], now) && k !in gone ==> d < k
    ensures forall i :: 0 <= i < |order| ==> slots[i] == if i in gone then None else Some(order[i])
  {
    hide IsStale;
    staleCount, gone, stopped := 0, {}, false;
    for i := 0 to slots.Length
      invariant !stopped && staleCount == |gone| < maxIdx && gone == StaleIn(cfg, order, now, i)
      invariant forall k :: 0 <= k < |order| ==> slots[k] == if k in gone then None else Some(order[k])
    {
      var rev := slots[i].value;
      if IsStale(cfg, rev, now) {
        assert StaleIn(cfg, order, now, i + 1) == gone + {i};
        slots[i] := None;
        gone := gone + {i};
        staleCount := staleCount + 1;
        if staleCount >= maxIdx {
          stopped := true;
          return;
        }
      } else {
        assert StaleIn(cfg, order, now, i + 1) == gone;
      }
    }
  }

  /** The second loop: the oldest of what is left, until needs of them are gone. */
  method DeleteOldest(slots: array<Option<Revision>>, needs: nat, ghost dead: set<nat>) returns (gone: set<nat>)
    requires forall i :: 0 <= i < slots.Length ==> (slots[i].None? <==> i in dead)
    requires (forall d :: d in dead ==> d < slots.Length) && needs <= slots.Length - |dead|
    ensures |gone| == needs && gone !! dead
    ensures forall d :: d in gone ==> d < slots.Length
    ensures forall d, k :: d in gone && 0 <= k < slots.Length && k !in dead && k !in gone ==> d < k
  {
    hide Upto;
    gone := {};
    var i := 0;
    while i < slots.Length && |gone| != needs
      invariant 0 <= i <= slots.Length && |gone| <= needs
      invariant gone == Upto(i) - dead
    {
      UptoNext(i, dead);
      if slots[i].Some? {
        gone := gone + {i};
      }
      i := i + 1;
    }
    if i == slots.Length {
      LeftOver(slots.Length, dead, gone);
    }
  }

  /** The numbers below n. */
  function Upto(n: nat): (r: set<nat>)
    ensures |r| == n && forall k: nat :: k in r <==> k < n
  {
    if n == 0 then {} else Upto(n - 1) + {n - 1}
  }

  lemma UptoNext(i: nat, dead: set<nat>)
    ensures Upto(i + 1) - dead == Upto(i) - dead + (if i in dead then {} else {i})
  {
  }

  lemma LeftOver(n: nat, dead: set<nat>, gone: set<nat>)
    requires (forall d :: d in dead ==> d < n) && gone == Upto(n) - dead
    ensures |gone| == n - |dead|
  {
    assert Upto(n) == gone + dead;
    assert gone !! dead;
  }

  lemma {:induction false} SubsetSize(a: set<nat>, b: set<nat>)
    requires a <= b
    ensures |a| <= |b|
    decreases |a|
  {
    if x :| x in a {
      SubsetSize(a - {x}, b - {x});
    }
  }

  /** collect, with every delete call succeeding.  order is how sort.Slice left the
      non-active revisions; gone are the positions deleted. */
  method Collect(cfg: Config, revs: array<Revision>, latestReady: string, now: int, order: seq<Revision>)
    returns (gone: set<nat>)
    requires cfg.Valid() && SortedBy(order, NonActive(revs[..], latestReady))
    modifies revs
    ensures Collected(cfg, order, now, gone)
  {
    gone := {};
    NonActiveShorter(revs[..], latestReady);
    assert |order| == |NonActive(revs[..], latestReady)| by {
      assert |multiset(order)| == |order|;
      assert |multiset(NonActive(revs[..], latestReady))| == |NonActive(revs[..], latestReady)|;
    }
    if cfg.NothingEnabled() || revs.Length <= cfg.min {
      return;
    }
    var n := NonactiveRevisions(revs, latestReady);
    assert n == |order| by {
      assert |multiset(revs[..n])| == n;
      assert |multiset(order)| == |order|;
    }
    if n <= cfg.min {
      return;
    }
    gone := DeleteSorted(cfg, order, now);
  }

  lemma {:induction false} NonActiveShorter(revs: seq<Revision>, latestReady: string)
    ensures |NonActive(revs, latestReady)| <= |revs|
  {
    if revs != [] {
      NonActiveShorter(revs[..|revs| - 1], latestReady);
    }
  }

  /** The two deletion loops over the sorted slice. */
  method DeleteSorted(cfg: Config, order: seq<Revision>, now: int) returns (gone: set<nat>)
    requires cfg.Valid() && |order| > cfg.min && !cfg.NothingEnabled()
    ensures Collected(cfg, order, now, gone)
  {
    var slots := new Option<Revision>[|order|](i requires 0 <= i < |order| => Some(order[i]));
    var staleCount, stale, stopped := DeleteStale(cfg, slots, now, |order| - cfg.min, order);
    gone := stale;
    SubsetSize(stale, StaleIn(cfg, order, now, |order|));
    if stopped {
      return;
    }
    var nonStaleCount := |order| - staleCount;
    if cfg.max == DISABLED || nonStaleCount <= cfg.max {
      return;
    }
    var more := DeleteOldest(slots, nonStaleCount - cfg.max, stale);
    assert |stale + more| == |stale| + |more|;
    gone := stale + more;
  }
}

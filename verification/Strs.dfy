/** The order of Go strings, and the sorted listing of a set of them. */
module Strs {

  /** Lexicographic `a < b`. */
  predicate Less(a: string, b: string) {
    b != [] && (a == [] || a[0] < b[0] || (a[0] == b[0] && Less(a[1..], b[1..])))
  }

  lemma {:induction false} LessIrreflexive(a: string)
    ensures !Less(a, a)
  {
    if a != [] {
      LessIrreflexive(a[1..]);
    }
  }

  lemma {:induction false} LessTransitive(a: string, b: string, c: string)
    requires Less(a, b) && Less(b, c)
    ensures Less(a, c)
  {
    if a != [] && a[0] == b[0] == c[0] {
      LessTransitive(a[1..], b[1..], c[1..]);
    }
  }

  lemma {:induction false} LessTotal(a: string, b: string)
    requires a != b
    ensures Less(a, b) || Less(b, a)
  {
    if a != [] && b != [] && a[0] == b[0] {
      assert a == [a[0]] + a[1..] && b == [b[0]] + b[1..];
      LessTotal(a[1..], b[1..]);
    }
  }

  /** The order is by the first character that differs, a proper prefix coming first. */
  lemma {:induction false} LessExactly(a: string, b: string)
    ensures Less(a, b) <==>
              exists k :: 0 <= k <= |a| && k < |b| && a[..k] == b[..k] && (k == |a| || a[k] < b[k])
  {
    if a == [] || b == [] || a[0] != b[0] {
      if Less(a, b) {
        assert a[..0] == b[..0];
      }
      assert forall k :: 0 < k <= |a| && k < |b| ==> a[..k][0] == a[0] && b[..k][0] == b[0];
    } else {
      LessExactly(a[1..], b[1..]);
      var x, y := a[1..], b[1..];
      if k :| 0 <= k <= |x| && k < |y| && x[..k] == y[..k] && (k == |x| || x[k] < y[k]) {
        assert a[..k + 1] == [a[0]] + a[1..][..k] && b[..k + 1] == [b[0]] + b[1..][..k];
      }
      if k :| 0 <= k <= |a| && k < |b| && a[..k] == b[..k] && (k == |a| || a[k] < b[k]) {
        assert a[1..][..k - 1] == a[..k][1..] && b[1..][..k - 1] == b[..k][1..];
      }
    }
  }

  predicate StrictlySorted(xs: seq<string>) {
    forall i, j :: 0 <= i < j < |xs| ==> Less(xs[i], xs[j])
  }

  /** The elements of a list. */
  function Elems(ys: seq<string>): set<string> { set y | y in ys }

  predicate IsLeast(xs: set<string>, m: string) {
    m in xs && forall x :: x in xs && x != m ==> Less(m, x)
  }

  lemma {:induction false} LeastExists(xs: set<string>)
    requires xs != {}
    ensures exists m :: IsLeast(xs, m)
    decreases |xs|
  {
    var x :| x in xs;
    var rest := xs - {x};
    assert forall y :: y in xs && y != x ==> y in rest;
    if rest == {} {
      assert IsLeast(xs, x);
    } else {
      LeastExists(rest);
      var m :| IsLeast(rest, m);
      LessTotal(x, m);
      if Less(m, x) {
        assert IsLeast(xs, m);
      } else {
        forall y | y in xs && y != x
          ensures Less(x, y)
        {
          if y != m {
            LessTransitive(x, m, y);
          }
        }
        assert IsLeast(xs, x);
      }
    }
  }

  lemma LeastUnique(xs: set<string>, m: string, m': string)
    requires IsLeast(xs, m) && IsLeast(xs, m')
    ensures m == m'
  {
    if m != m' {
      LessTransitive(m, m', m);
      LessIrreflexive(m);
    }
  }

  function Least(xs: set<string>): (m: string)
    requires xs != {}
    ensures IsLeast(xs, m)
  {
    LeastExists(xs);
    assert forall m, m' :: IsLeast(xs, m) && IsLeast(xs, m') ==> m == m' by {
      forall m, m' | IsLeast(xs, m) && IsLeast(xs, m')
        ensures m == m'
      {
        LeastUnique(xs, m, m');
      }
    }
    var m :| m in xs && IsLeast(xs, m);
    m
  }

  lemma ConsSorted(xs: set<string>, m: string, rest: seq<string>)
    requires IsLeast(xs, m) && StrictlySorted(rest) && Elems(rest) == xs - {m}
    ensures StrictlySorted([m] + rest) && Elems([m] + rest) == xs
  {
    var ys := [m] + rest;
    forall i, j | 0 <= i < j < |ys|
      ensures Less(ys[i], ys[j])
    {
      assert ys[j] == rest[j - 1] && ys[j] in Elems(rest);
      if i > 0 {
        assert ys[i] == rest[i - 1];
      }
    }
    forall y | y in xs
      ensures y in ys
    {
      if y != m {
        assert y in Elems(rest);
        assert y in rest;
      }
    }
    forall y | y in ys
      ensures y in xs
    {
      if y != m {
        assert y in rest;
        assert y in Elems(rest);
      }
    }
  }

  /** The elements in increasing order: `sets.List`, or an unsorted listing put through `sort.Strings`. */
  function Sorted(xs: set<string>): (ys: seq<string>)
    ensures StrictlySorted(ys) && Elems(ys) == xs && |ys| == |xs|
    decreases |xs|
  {
    if xs == {} then []
    else
      var m := Least(xs);
      var rest := Sorted(xs - {m});
      ConsSorted(xs, m, rest);
      [m] + rest
  }
}

/** Machine-word arithmetic on natural numbers: shifts, `|` and `&`, with the
    identities that let packed words and base-128 varints be read as sums. */
module Bits {

  /** 2 to the power k. */
  function Pow2(k: nat): (r: nat)
    ensures r > 0
  {
    if k == 0 then 1 else 2 * Pow2(k - 1)
  }

  /** Bitwise `a | b`, bit by bit from the least significant end. */
  function Or(a: nat, b: nat): (r: nat)
  {
    if a == 0 && b == 0 then 0
    else 2 * Or(a / 2, b / 2) + (if a % 2 == 1 || b % 2 == 1 then 1 else 0)
  }

  /** Bitwise `a & b`. */
  function And(a: nat, b: nat): (r: nat)
  {
    if a == 0 || b == 0 then 0
    else 2 * And(a / 2, b / 2) + (if a % 2 == 1 && b % 2 == 1 then 1 else 0)
  }

  /** Bitwise `x >> k`, one place at a time. */
  function Shr(x: nat, k: nat): (r: nat)
  {
    if k == 0 then x else Shr(x / 2, k - 1)
  }

  /** Number of bits needed to write x (`bits.Len64`). */
  function Len(x: nat): (r: nat)
  {
    if x == 0 then 0 else 1 + Len(x / 2)
  }

  lemma {:induction false} Pow2Add(j: nat, k: nat)
    ensures Pow2(j + k) == Pow2(j) * Pow2(k)
  {
    if j == 0 {
    } else {
      Pow2Add(j - 1, k);
      assert Pow2(j + k) == 2 * Pow2((j - 1) + k);
    }
  }

  lemma Pow2At64()
    ensures Pow2(3) == 8 && Pow2(7) == 128 && Pow2(8) == 256
    ensures Pow2(16) == 0x1_0000 && Pow2(32) == 0x1_0000_0000
    ensures Pow2(63) == 0x8000_0000_0000_0000 && Pow2(64) == 0x1_0000_0000_0000_0000
  {
    assert Pow2(4) == 16;
    Pow2Add(4, 4);
    Pow2Add(8, 8);
    Pow2Add(16, 16);
    Pow2Add(32, 32);
    assert Pow2(64) == 2 * Pow2(63);
  }

  lemma {:induction false} OrZero(a: nat)
    ensures Or(a, 0) == a && Or(0, a) == a
  {
    if a != 0 {
      OrZero(a / 2);
    }
  }

  /** Or-ing disjoint bit ranges is addition: `hi << k | lo` for lo below 2^k. */
  lemma {:induction false} OrDisjoint(hi: nat, lo: nat, k: nat)
    requires lo < Pow2(k)
    ensures Or(hi * Pow2(k), lo) == hi * Pow2(k) + lo
    ensures Or(lo, hi * Pow2(k)) == hi * Pow2(k) + lo
  {
    if k == 0 {
      OrZero(hi);
    } else {
      var h := hi * Pow2(k - 1);
      assert hi * Pow2(k) == 2 * h;
      assert (2 * h) / 2 == h && (2 * h) % 2 == 0;
      OrDisjoint(hi, lo / 2, k - 1);
    }
  }

  /** Masking with k one bits is the remainder modulo 2^k. */
  lemma {:induction false} AndMask(x: nat, k: nat)
    ensures And(x, Pow2(k) - 1) == x % Pow2(k)
  {
    if k == 0 {
      assert Pow2(k) == 1;
    } else if x == 0 {
      ModUnique(0, Pow2(k), 0, 0);
    } else {
      var p := Pow2(k - 1);
      calc {
        And(x, Pow2(k) - 1);
        { assert Pow2(k) - 1 == 2 * (p - 1) + 1; AndOdd(x, p - 1); }
        2 * And(x / 2, p - 1) + x % 2;
        { AndMask(x / 2, k - 1); }
        2 * ((x / 2) % p) + x % 2;
        { HalveMod(x, p); }
        x % (2 * p);
        { assert Pow2(k) == 2 * p; }
        x % Pow2(k);
      }
    }
  }

  /** One unfolding of `&` against an odd number. */
  lemma AndOdd(x: nat, m: nat)
    requires x > 0
    ensures And(x, 2 * m + 1) == 2 * And(x / 2, m) + x % 2
  {
    assert (2 * m + 1) / 2 == m && (2 * m + 1) % 2 == 1;
  }

  lemma HalveMod(x: nat, p: nat)
    requires p > 0
    ensures x % (2 * p) == 2 * ((x / 2) % p) + x % 2
  {
    var h := x / 2;
    var q := h / p;
    assert h == q * p + h % p;
    assert x == q * (2 * p) + (2 * (h % p) + x % 2);
    ModUnique(x, 2 * p, q, 2 * (h % p) + x % 2);
  }

  lemma ModUnique(x: int, m: int, q: int, r: int)
    requires m > 0 && 0 <= r < m && x == q * m + r
    ensures x % m == r && x / m == q
  {
    var d := x / m - q;
    assert d * m == r - x % m by {
      assert x == (x / m) * m + x % m;
      assert (x / m) * m - q * m == d * m;
    }
  }

  /** A product with a nonnegative factor keeps order. */
  lemma MulMono(a: int, b: int, c: int)
    requires a <= b && c >= 0
    ensures a * c <= b * c
  {
  }

  /** Shifting right by k places is division by 2^k. */
  lemma {:induction false} ShrIsDivision(x: nat, k: nat)
    ensures Shr(x, k) == x / Pow2(k)
  {
    if k > 0 {
      ShrIsDivision(x / 2, k - 1);
      var p := Pow2(k - 1);
      var q, r := (x / 2) / p, (x / 2) % p;
      assert x / 2 == q * p + r;
      assert q * (2 * p) == 2 * (q * p);
      ModUnique(x, 2 * p, q, 2 * r + x % 2);
    }
  }

  /** Dividing twice is dividing by the product. */
  lemma DivideTwice(x: nat, a: nat, b: nat)
    requires a > 0 && b > 0
    ensures a * b > 0 && (x / a) / b == x / (a * b)
  {
    var y, s := x / a, x % a;
    var q, r := y / b, y % b;
    assert x == y * a + s && y == q * b + r;
    assert y * a == (q * b) * a + r * a;
    assert (q * b) * a == q * (a * b);
    MulMono(r + 1, b, a);
    assert (r + 1) * a == r * a + a;
    MulMono(1, b, a);
    ModUnique(x, a * b, q, r * a + s);
  }
}

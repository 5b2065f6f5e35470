/** Powers of two and bitwise operations on unbounded naturals, in the form the generated code uses
    them: shift left is multiplication, shift right is division, and a mask is a remainder. */
module Bits {

  function Pow2(n: nat): (p: nat)
    ensures p >= 1
  {
    if n == 0 then 1 else 2 * Pow2(n - 1)
  }

  /** `n >> k` for d = 2^k; by repeated subtraction, so that proofs meet no division. */
  function Quot(n: nat, d: nat): nat
    requires d > 0
  {
    if n < d then 0 else 1 + Quot(n - d, d)
  }

  /** `n & (2^k - 1)` for d = 2^k. */
  function Rem(n: nat, d: nat): (r: nat)
    requires d > 0
    ensures r < d && r <= n
  {
    if n < d then n else Rem(n - d, d)
  }

  /** `hi << k | lo` for d = 2^k and lo below it. */
  function Join(hi: nat, d: nat, lo: nat): (n: nat)
    ensures n >= lo
  {
    if hi == 0 then lo else d + Join(hi - 1, d, lo)
  }

  lemma {:induction false} QuotRemAre(n: nat, d: nat)
    requires d > 0
    ensures Quot(n, d) == n / d && Rem(n, d) == n % d
  {
    if n >= d {
      QuotRemAre(n - d, d);
      DivModOf(n / d, d, n % d);
      DivModOf((n - d) / d + 1, d, (n - d) % d);
    }
  }

  lemma {:induction false} JoinIs(hi: nat, d: nat, lo: nat)
    ensures Join(hi, d, lo) == hi * d + lo
  {
    if hi != 0 {
      JoinIs(hi - 1, d, lo);
    }
  }

  lemma {:induction false} JoinSplit(hi: nat, d: nat, lo: nat)
    requires lo < d
    ensures Quot(Join(hi, d, lo), d) == hi && Rem(Join(hi, d, lo), d) == lo
  {
    if hi != 0 {
      JoinSplit(hi - 1, d, lo);
    }
  }

  lemma {:induction false} SplitJoin(n: nat, d: nat)
    requires d > 0
    ensures Join(Quot(n, d), d, Rem(n, d)) == n
  {
    if n >= d {
      SplitJoin(n - d, d);
    }
  }

  lemma {:induction false} QuotLess(n: nat, d: nat)
    requires d >= 2 && n > 0
    ensures Quot(n, d) < n
  {
    if n > d {
      QuotLess(n - d, d);
    }
  }

  /** Three numbers side by side. */
  lemma {:induction false} JoinAssoc(a: nat, m: nat, b: nat, d: nat, c: nat)
    ensures Join(Join(a, m, b), d, c) == Join(a, m * d, Join(b, d, c))
  {
    JoinIs(Join(a, m, b), d, c);
    JoinIs(a, m, b);
    JoinIs(a, m * d, Join(b, d, c));
    JoinIs(b, d, c);
    Distribute(a, m, b, d);
  }

  lemma {:induction false} Distribute(a: int, m: int, b: int, d: int)
    ensures (a * m + b) * d == a * (m * d) + b * d
  {
    assert (a * m) * d == a * (m * d);
  }

  /** Shifting and masking in two steps. */
  lemma {:induction false} SplitTwice(n: nat, m: nat, d: nat)
    requires m > 0 && d > 0 && m * d > 0
    ensures Quot(n, m * d) == Quot(Quot(n, d), m)
    ensures Rem(n, m * d) == Join(Rem(Quot(n, d), m), d, Rem(n, d))
  {
    var q, r := Quot(n, d), Rem(n, d);
    SplitJoin(n, d);
    SplitJoin(q, m);
    JoinAssoc(Quot(q, m), m, Rem(q, m), d, r);
    JoinLt(Rem(q, m), m, d, r);
    JoinSplit(Quot(q, m), m * d, Join(Rem(q, m), d, r));
  }

  lemma {:induction false} JoinLt(hi: nat, m: nat, d: nat, lo: nat)
    requires hi < m && lo < d
    ensures Join(hi, d, lo) < m * d
  {
    JoinIs(hi, d, lo);
    MulLt(hi, m, d, lo);
  }

  lemma {:induction false} QuotLt(n: nat, m: nat, d: nat)
    requires d > 0 && n < m * d
    ensures Quot(n, d) < m
  {
    JoinIs(Quot(n, d), d, Rem(n, d));
    SplitJoin(n, d);
    MulMono(m, Quot(n, d), d);
  }

  lemma {:induction false} Pow2Add(a: nat, b: nat)
    ensures Pow2(a + b) == Pow2(a) * Pow2(b)
  {
    if a != 0 {
      Pow2Add(a - 1, b);
      assert a + b - 1 == a - 1 + b;
    }
  }

  lemma {:induction false} Pow2Mono(a: nat, b: nat)
    requires a <= b
    ensures Pow2(a) <= Pow2(b)
  {
    Pow2Add(a, b - a);
    MulGe(Pow2(a), Pow2(b - a));
  }

  lemma {:induction false} MulGe(x: nat, y: nat)
    requires y >= 1
    ensures x * y >= x
  {
  }

  /** Division and remainder of a number given in the form q * d + r. */
  lemma {:induction false} DivModOf(q: nat, d: nat, r: nat)
    requires r < d
    ensures (q * d + r) / d == q && (q * d + r) % d == r
  {
    var n := q * d + r;
    assert n == (n / d) * d + n % d;
    assert (n / d - q) * d == r - n % d;
    SmallMultiple(n / d - q, d);
  }

  /** A multiple of d smaller than d in magnitude is zero. */
  lemma {:induction false} SmallMultiple(x: int, d: int)
    requires -d < x * d < d
    ensures x == 0
  {
    MulMono(1, x, d);
    MulMono(1, -x, d);
  }

  lemma {:induction false} MulMono(a: int, b: int, d: int)
    requires d >= 0
    ensures a <= b ==> a * d <= b * d
  {
    if a <= b {
      assert (b - a) * d >= 0;
    }
  }

  /** A product bound used for all "value fits in so many bits" arguments. */
  lemma {:induction false} MulLt(q: nat, m: nat, d: nat, r: nat)
    requires q < m && r < d
    ensures q * d + r < m * d
  {
    assert (q + 1) * d <= m * d;
  }

  /** Bitwise `a | b`. */
  function Or(a: nat, b: nat): nat
    decreases a + b
  {
    if a == 0 then b
    else if b == 0 then a
    else 2 * Or(a / 2, b / 2) + (if a % 2 == 1 || b % 2 == 1 then 1 else 0)
  }

  /** Bitwise `a & b`. */
  function And(a: nat, b: nat): nat
    decreases a + b
  {
    if a == 0 || b == 0 then 0
    else 2 * And(a / 2, b / 2) + (if a % 2 == 1 && b % 2 == 1 then 1 else 0)
  }

  /** Bitwise `a ^ b`. */
  function Xor(a: nat, b: nat): nat
    decreases a + b
  {
    if a == 0 then b
    else if b == 0 then a
    else 2 * Xor(a / 2, b / 2) + (a + b) % 2
  }

  lemma {:induction false} OrStep(x: nat, y: nat, bit: nat)
    requires bit < 2
    ensures Or(2 * x, 2 * y + bit) == 2 * Or(x, y) + bit
    ensures Or(2 * y + bit, 2 * x) == 2 * Or(y, x) + bit
  {
    assert (2 * x) / 2 == x && (2 * y + bit) / 2 == y;
  }

  lemma {:induction false} JoinDouble(hi: nat, d: nat, lo: nat, bit: nat)
    ensures Join(hi, 2 * d, 2 * lo + bit) == 2 * Join(hi, d, lo) + bit
  {
    if hi != 0 {
      JoinDouble(hi - 1, d, lo, bit);
    }
  }

  /** Or of a shifted number and one that fits under the shift puts them side by side. */
  lemma {:induction false} OrDisjoint(a: nat, b: nat, k: nat)
    requires b < Pow2(k)
    ensures Or(Join(a, Pow2(k), 0), b) == Join(a, Pow2(k), b)
    ensures Or(b, Join(a, Pow2(k), 0)) == Join(a, Pow2(k), b)
  {
    if k == 0 {
      assert b == 0;
    } else {
      var m := Pow2(k - 1);
      OrDisjoint(a, b / 2, k - 1);
      JoinDouble(a, m, 0, 0);
      JoinDouble(a, m, b / 2, b % 2);
      OrStep(Join(a, m, 0), b / 2, b % 2);
    }
  }

  /** Masking with k one bits is the remainder modulo 2^k. */
  lemma {:induction false} AndMask(a: nat, k: nat)
    ensures And(a, Pow2(k) - 1) == Rem(a, Pow2(k))
  {
    if k != 0 {
      AndMask(a / 2, k - 1);
      MaskStep(a, Pow2(k - 1));
    }
  }

  lemma {:induction false} MaskStep(a: nat, m: nat)
    requires m > 0 && And(a / 2, m - 1) == Rem(a / 2, m)
    ensures And(a, 2 * m - 1) == Rem(a, 2 * m)
  {
    AndOdd(a / 2, a % 2, m - 1);
    RemDouble(a / 2, a % 2, m);
    assert a == 2 * (a / 2) + a % 2;
  }

  lemma {:induction false} AndOdd(a: nat, bit: nat, m: nat)
    requires bit < 2
    ensures And(2 * a + bit, 2 * m + 1) == 2 * And(a, m) + bit
  {
    assert (2 * a + bit) / 2 == a && (2 * m + 1) / 2 == m;
  }

  lemma {:induction false} RemDouble(a: nat, bit: nat, m: nat)
    requires m > 0 && bit < 2
    ensures Rem(2 * a + bit, 2 * m) == 2 * Rem(a, m) + bit
  {
    var q, r := Quot(a, m), Rem(a, m);
    SplitJoin(a, m);
    JoinDouble(q, m, r, bit);
    JoinSplit(q, 2 * m, 2 * r + bit);
  }
}

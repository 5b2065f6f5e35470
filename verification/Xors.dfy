/** Laws of the bitwise exclusive or on naturals. */
module Xors {
  import opened Bits

  lemma {:induction false} HalfOf(q: nat, bit: nat)
    requires bit < 2
    ensures (2 * q + bit) / 2 == q && (2 * q + bit) % 2 == bit
  {
  }

  lemma {:induction false} XorComm(a: nat, b: nat)
    ensures Xor(a, b) == Xor(b, a)
    decreases a + b
  {
    if a > 0 && b > 0 {
      XorComm(a / 2, b / 2);
    }
  }

  lemma {:induction false} XorSelf(a: nat)
    ensures Xor(a, a) == 0 && Xor(a, 0) == a && Xor(0, a) == a
  {
    if a > 0 {
      XorSelf(a / 2);
    }
  }

  /** Exclusive or of two bits. */
  function Odd(p: nat, q: nat): (r: nat)
    ensures r < 2
  {
    if p == q then 0 else 1
  }

  lemma {:induction false} XorStep(x: nat, y: nat, p: nat, q: nat)
    requires p < 2 && q < 2
    ensures Xor(2 * x + p, 2 * y + q) == 2 * Xor(x, y) + Odd(p, q)
  {
    var a, b := 2 * x + p, 2 * y + q;
    if a != 0 && b != 0 {
      HalfOf(x, p);
      HalfOf(y, q);
      assert (a + b) % 2 == Odd(p, q);
      assert Xor(a, b) == 2 * Xor(a / 2, b / 2) + (a + b) % 2;
    }
  }

  lemma {:induction false} XorAssoc(a: nat, b: nat, c: nat)
    ensures Xor(Xor(a, b), c) == Xor(a, Xor(b, c))
    decreases a + b + c
  {
    if a > 0 && b > 0 && c > 0 {
      XorAssoc(a / 2, b / 2, c / 2);
      AssocStep(a / 2, b / 2, c / 2, a % 2, b % 2, c % 2);
      assert 2 * (a / 2) + a % 2 == a && 2 * (b / 2) + b % 2 == b && 2 * (c / 2) + c % 2 == c;
    }
  }

  lemma {:induction false} AssocStep(x: nat, y: nat, z: nat, p: nat, q: nat, r: nat)
    requires p < 2 && q < 2 && r < 2 && Xor(Xor(x, y), z) == Xor(x, Xor(y, z))
    ensures Xor(Xor(2 * x + p, 2 * y + q), 2 * z + r) == Xor(2 * x + p, Xor(2 * y + q, 2 * z + r))
  {
    var u, v := Odd(p, q), Odd(q, r);
    XorStep(x, y, p, q);
    XorStep(y, z, q, r);
    XorStep(Xor(x, y), z, u, r);
    XorStep(x, Xor(y, z), p, v);
  }

  lemma {:induction false} XorCancel(a: nat, b: nat, c: nat)
    ensures Xor(a, c) == Xor(b, c) <==> a == b
    ensures Xor(c, a) == Xor(c, b) <==> a == b
  {
    XorAssoc(a, c, c);
    XorAssoc(b, c, c);
    XorSelf(a);
    XorSelf(b);
    XorSelf(c);
    XorComm(a, c);
    XorComm(b, c);
  }

  lemma {:induction false} XorSwap(a: nat, b: nat, c: nat)
    ensures Xor(Xor(a, c), Xor(b, c)) == Xor(a, b)
    ensures Xor(Xor(a, c), b) == Xor(Xor(a, b), c)
  {
    XorAssoc(a, c, b);
    XorComm(c, b);
    XorAssoc(a, b, c);
    XorAssoc(Xor(a, c), b, c);
    XorAssoc(Xor(a, b), c, c);
    XorSelf(c);
    XorSelf(Xor(a, b));
  }

  lemma {:induction false} XorBound(a: nat, b: nat, n: nat)
    requires a < Pow2(n) && b < Pow2(n)
    ensures Xor(a, b) < Pow2(n)
  {
    if n > 0 && a > 0 && b > 0 {
      XorBound(a / 2, b / 2, n - 1);
    }
  }

  /** The top bit of one of the two stays. */
  lemma {:induction false} XorTop(a: nat, b: nat, n: nat)
    requires a < Pow2(n) <= b < Pow2(n + 1)
    ensures Xor(a, b) >= Pow2(n)
  {
    if n > 0 && a > 0 {
      XorTop(a / 2, b / 2, n - 1);
    }
  }

  /** Numbers side by side are combined side by side. */
  lemma {:induction false} XorJoin(a: nat, b: nat, k: nat, x: nat, y: nat)
    requires x < Pow2(k) && y < Pow2(k)
    ensures Xor(Join(a, Pow2(k), x), Join(b, Pow2(k), y)) == Join(Xor(a, b), Pow2(k), Xor(x, y))
  {
    if k == 0 {
      JoinIs(a, 1, 0);
      JoinIs(b, 1, 0);
      JoinIs(Xor(a, b), 1, 0);
    } else {
      XorJoin(a, b, k - 1, x / 2, y / 2);
      JoinStep(a, b, Pow2(k - 1), x / 2, y / 2, x % 2, y % 2);
      assert 2 * (x / 2) + x % 2 == x && 2 * (y / 2) + y % 2 == y;
    }
  }

  lemma {:induction false} JoinStep(a: nat, b: nat, m: nat, x: nat, y: nat, p: nat, q: nat)
    requires p < 2 && q < 2 && Xor(Join(a, m, x), Join(b, m, y)) == Join(Xor(a, b), m, Xor(x, y))
    ensures Xor(Join(a, 2 * m, 2 * x + p), Join(b, 2 * m, 2 * y + q)) == Join(Xor(a, b), 2 * m, Xor(2 * x + p, 2 * y + q))
  {
    JoinDouble(a, m, x, p);
    JoinDouble(b, m, y, q);
    JoinedStep(Join(a, m, x), Join(b, m, y), p, q, Join(Xor(a, b), m, Xor(x, y)));
    XorStep(x, y, p, q);
    JoinDouble(Xor(a, b), m, Xor(x, y), Odd(p, q));
  }

  lemma {:induction false} JoinedStep(u: nat, v: nat, p: nat, q: nat, j: nat)
    requires p < 2 && q < 2 && Xor(u, v) == j
    ensures Xor(2 * u + p, 2 * v + q) == 2 * j + Odd(p, q)
  {
    XorStep(u, v, p, q);
  }
}

/** Bytes and the fixed-width big- and little-endian encodings of naturals. */
module Bytes {
  import opened Bits

  type byte = x: int | 0 <= x < 256
  type bytes = seq<byte>

  /** 256 to the n. */
  function Pow256(n: nat): (p: nat)
    ensures p >= 1
  {
    if n == 0 then 1 else 256 * Pow256(n - 1)
  }

  function FromBE(b: bytes): (v: nat)
    ensures v < Pow256(|b|)
  {
    if b == [] then 0
    else
      JoinLt(b[0], 256, Pow256(|b| - 1), FromBE(b[1..]));
      Join(b[0], Pow256(|b| - 1), FromBE(b[1..]))
  }

  /** The low n bytes of v, high byte first. */
  function ToBE(n: nat, v: nat): (b: bytes)
    ensures |b| == n
  {
    if n == 0 then [] else [Rem(Quot(v, Pow256(n - 1)), 256)] + ToBE(n - 1, Rem(v, Pow256(n - 1)))
  }

  function FromLE(b: bytes): (v: nat)
    ensures v < Pow256(|b|)
  {
    if b == [] then 0 else 256 * FromLE(b[1..]) + b[0]
  }

  /** The low n bytes of v, low byte first. */
  function ToLE(n: nat, v: nat): (b: bytes)
    ensures |b| == n
  {
    if n == 0 then [] else [v % 256] + ToLE(n - 1, v / 256)
  }

  lemma {:induction false} FromToBE(n: nat, v: nat)
    requires v < Pow256(n)
    ensures FromBE(ToBE(n, v)) == v
  {
    if n != 0 {
      var p := Pow256(n - 1);
      QuotLt(v, 256, p);
      SplitJoin(v, p);
      FromToBE(n - 1, Rem(v, p));
      assert ToBE(n, v)[1..] == ToBE(n - 1, Rem(v, p));
    }
  }

  lemma {:induction false} ToFromBE(b: bytes)
    ensures ToBE(|b|, FromBE(b)) == b
  {
    if b != [] {
      ToFromBE(b[1..]);
      JoinSplit(b[0], Pow256(|b| - 1), FromBE(b[1..]));
    }
  }

  lemma {:induction false} FromToLE(n: nat, v: nat)
    requires v < Pow256(n)
    ensures FromLE(ToLE(n, v)) == v
  {
    if n != 0 {
      FromToLE(n - 1, v / 256);
      assert ToLE(n, v)[1..] == ToLE(n - 1, v / 256);
    }
  }

  lemma {:induction false} ToFromLE(b: bytes)
    ensures ToLE(|b|, FromLE(b)) == b
  {
    if b != [] {
      ToFromLE(b[1..]);
      LowByte(FromLE(b[1..]), b[0]);
    }
  }

  lemma {:induction false} LowByte(n: nat, x: byte)
    ensures (256 * n + x) % 256 == x && (256 * n + x) / 256 == n
  {
  }

  lemma {:induction false} TwoBytes(b: bytes)
    requires |b| == 2
    ensures FromBE(b) == Join(b[0], 256, b[1])
  {
    assert Pow256(1) == 256;
    assert FromBE(b[1..][1..]) == 0;
    JoinIs(b[1], 1, 0);
  }

  // ----- which byte is where

  lemma {:induction false} Pow256Add(m: nat, n: nat)
    ensures Pow256(m + n) == Pow256(m) * Pow256(n)
  {
    if m != 0 {
      Pow256Add(m - 1, n);
      assert m + n - 1 == m - 1 + n;
      assert (256 * Pow256(m - 1)) * Pow256(n) == 256 * (Pow256(m - 1) * Pow256(n));
    }
  }

  lemma {:induction false} QuotTwice(n: nat, m: nat, d: nat)
    requires m > 0 && d > 0
    ensures m * d > 0 && n / (m * d) == (n / d) / m
  {
    assert m * d > 0;
    SplitTwice(n, m, d);
    QuotRemAre(n, m * d);
    QuotRemAre(n, d);
    QuotRemAre(Quot(n, d), m);
  }

  /** Low byte first: byte i counts 256 to the i. */
  lemma {:induction false} LittleEndianAt(n: nat, v: nat, i: nat)
    requires i < n
    ensures ToLE(n, v)[i] == v / Pow256(i) % 256
  {
    if i > 0 {
      LittleEndianAt(n - 1, v / 256, i - 1);
      QuotTwice(v, Pow256(i - 1), 256);
    }
  }

  /** High byte first: byte i counts 256 to the number of bytes behind it. */
  lemma {:induction false} BigEndianAt(n: nat, v: nat, i: nat)
    requires i < n
    ensures ToBE(n, v)[i] == v / Pow256(n - 1 - i) % 256
  {
    var top := Pow256(n - 1);
    QuotRemAre(v, top);
    QuotRemAre(Quot(v, top), 256);
    if i > 0 {
      BigEndianAt(n - 1, Rem(v, top), i - 1);
      Pow256Add(i, n - 1 - i);
      LowQuot(v, Pow256(i - 1), Pow256(n - 1 - i), top);
    }
  }

  lemma {:induction false} LowQuot(v: nat, p: nat, d: nat, top: nat)
    requires d > 0 && top > 0 && top == 256 * p * d
    ensures v / d % 256 == (v % top) / d % 256
  {
    var q, r := v / top, v % top;
    assert v == q * top + r;
    Regroup(q, p, d);
    HighDropped(q * p, d, r);
  }

  lemma {:induction false} HighDropped(e: nat, d: nat, r: nat)
    requires d > 0
    ensures (e * 256 * d + r) / d % 256 == r / d % 256
  {
    var t := r / d;
    assert r == t * d + r % d;
    assert (256 * e + t) * d == e * 256 * d + t * d;
    DivModOf(256 * e + t, d, r % d);
    AddMultiple(e, t);
  }

  lemma {:induction false} Regroup(q: nat, p: nat, d: nat)
    ensures q * (256 * p * d) == (q * p) * 256 * d
  {
    assert q * (256 * p * d) == q * (256 * (p * d));
    assert (q * p) * 256 * d == 256 * ((q * p) * d);
    assert (q * p) * d == q * (p * d);
  }

  lemma {:induction false} AddMultiple(k: nat, t: nat)
    ensures (256 * k + t) % 256 == t % 256
  {
  }

  lemma {:induction false} Pow256IsPow2(n: nat)
    ensures Pow256(n) == Pow2(8 * n)
  {
    if n != 0 {
      Pow256IsPow2(n - 1);
      Pow2Add(8, 8 * (n - 1));
      assert Pow2(8) == 256 by {
        assert Pow2(4) == 16;
        Pow2Add(4, 4);
      }
    }
  }
}

/** What a CRC is: the complement of the remainder of a polynomial division over GF(2). Polynomials are written as
    numbers whose lowest bit is the coefficient of the highest power, the order in which both runtimes take in the
    bits of a message. */
module CrcRemainder {
  import opened Bits
  import opened Bytes
  import opened Xors
  import opened SkippedField
  import opened Crc

  /** The product of two polynomials. */
  function Times(q: nat, g: nat): nat {
    if q == 0 then 0 else Xor(if q % 2 == 1 then g else 0, 2 * Times(q / 2, g))
  }

  /** The power x^e in a polynomial of degree 32. */
  function X(e: nat): nat
    requires e <= 32
  {
    Pow2(32 - e)
  }

  /** A polynomial behind k others' places: x^k less significant. */
  function Behind(k: nat, r: nat): nat {
    if k == 0 then r else 2 * Behind(k - 1, r)
  }

  /** The message, with its first 32 bits inverted and room for 32 more behind it, is a multiple of the generator
      and the remainder r in the last 32 places. */
  predicate IsRemainder(g: nat, data: bytes, q: nat, r: nat) {
    && q < Pow2(8 * |data|) && r < 0x1_0000_0000
    && Inverted(FromLE(data)) == Xor(Times(q, g), Behind(8 * |data|, r))
  }

  /** With its first 32 bits inverted. */
  function Inverted(w: nat): nat { Xor(w, Pow2(32) - 1) }

  // ----- the generators

  lemma {:induction false} PowersOfTwo()
    ensures Pow2(0) == 1 && Pow2(1) == 2 && Pow2(2) == 4 && Pow2(3) == 8 && Pow2(4) == 0x10 && Pow2(5) == 0x20
    ensures Pow2(6) == 0x40 && Pow2(7) == 0x80 && Pow2(8) == 0x100 && Pow2(9) == 0x200 && Pow2(10) == 0x400
    ensures Pow2(12) == 0x1000 && Pow2(13) == 0x2000 && Pow2(14) == 0x4000 && Pow2(16) == 0x1_0000
    ensures Pow2(18) == 0x4_0000 && Pow2(19) == 0x8_0000 && Pow2(20) == 0x10_0000 && Pow2(21) == 0x20_0000
    ensures Pow2(22) == 0x40_0000 && Pow2(23) == 0x80_0000 && Pow2(24) == 0x100_0000 && Pow2(25) == 0x200_0000
    ensures Pow2(26) == 0x400_0000 && Pow2(27) == 0x800_0000 && Pow2(28) == 0x1000_0000 && Pow2(30) == 0x4000_0000
    ensures Pow2(31) == 0x8000_0000 && Pow2(32) == 0x1_0000_0000
  {
  }

  /** The generators of IEEE 802.3 and of section 12.1 of RFC 3720. */
  lemma {:induction false} Generators()
    ensures 2 * IEEE + 1 == X(32) + X(26) + X(23) + X(22) + X(16) + X(12) + X(11) + X(10) + X(8) + X(7) + X(5) + X(4) + X(2)
                            + X(1) + X(0)
    ensures 2 * CASTAGNOLI + 1 == X(32) + X(28) + X(27) + X(26) + X(25) + X(23) + X(22) + X(20) + X(19) + X(18) + X(14)
                                  + X(13) + X(11) + X(10) + X(9) + X(8) + X(6) + X(0)
  {
    PowersOfTwo();
  }

  // ----- division

  lemma {:induction false} XorDouble(a: nat, b: nat)
    ensures Xor(2 * a, 2 * b) == 2 * Xor(a, b)
  {
    XorStep(a, b, 0, 0);
  }

  /** One step of the division: the generator is subtracted where the highest coefficient is one. */
  lemma {:induction false} StepIs(poly: nat, w: nat)
    ensures w == Xor(if w % 2 == 1 then 2 * poly + 1 else 0, 2 * BitStep(poly, w))
  {
    var h := w / 2;
    if w % 2 == 1 {
      XorStep(poly, Xor(h, poly), 1, 0);
      XorComm(h, poly);
      XorAssoc(poly, poly, h);
      XorSelf(poly);
      XorSelf(h);
    } else {
      XorSelf(2 * h);
    }
  }

  lemma {:induction false} TimesStep(q: nat, g: nat, bit: nat)
    requires bit < 2
    ensures Times(2 * q + bit, g) == Xor(if bit == 1 then g else 0, 2 * Times(q, g))
  {
    HalfOf(q, bit);
    if q == 0 && bit == 0 {
      XorSelf(0);
    }
  }

  /** k bit steps divide: they leave the remainder in the places after the first k. */
  lemma {:induction false} StepsDivide(poly: nat, k: nat, w: nat) returns (q: nat)
    ensures q < Pow2(k) && w == Xor(Times(q, 2 * poly + 1), Behind(k, Steps(poly, k, w)))
  {
    if k == 0 {
      q := 0;
      XorSelf(w);
    } else {
      var g := 2 * poly + 1;
      var s := Steps(poly, k, w);
      var p := StepsDivide(poly, k - 1, BitStep(poly, w));
      q := 2 * p + w % 2;
      TimesStep(p, g, w % 2);
      StepIs(poly, w);
      XorDouble(Times(p, g), Behind(k - 1, s));
      XorAssoc(if w % 2 == 1 then g else 0, 2 * Times(p, g), Behind(k, s));
    }
  }

  lemma {:induction false} XorOdd(a: nat, b: nat)
    ensures Xor(a, b) % 2 == Odd(a % 2, b % 2)
  {
    XorStep(a / 2, b / 2, a % 2, b % 2);
    HalfOf(Xor(a / 2, b / 2), Odd(a % 2, b % 2));
    assert a == 2 * (a / 2) + a % 2 && b == 2 * (b / 2) + b % 2;
  }

  lemma {:induction false} EvenDouble(n: nat)
    ensures (2 * n) % 2 == 0
  {
  }

  lemma {:induction false} FirstCoefficient(q: nat, g: nat, t: nat)
    requires g % 2 == 1
    ensures Xor(Times(q, g), 2 * t) % 2 == q % 2
    ensures Xor(Times(q, g), 2 * t) == Xor(if q % 2 == 1 then g else 0, 2 * Xor(Times(q / 2, g), t))
  {
    var head := if q % 2 == 1 then g else 0;
    assert q == 2 * (q / 2) + q % 2;
    TimesStep(q / 2, g, q % 2);
    XorAssoc(head, 2 * Times(q / 2, g), 2 * t);
    XorDouble(Times(q / 2, g), t);
    XorOdd(head, 2 * Xor(Times(q / 2, g), t));
    EvenDouble(Xor(Times(q / 2, g), t));
  }

  /** Quotient and remainder are the only ones. */
  lemma {:induction false} OneDivision(g: nat, k: nat, q: nat, s: nat, p: nat, t: nat)
    requires g % 2 == 1 && q < Pow2(k) && p < Pow2(k)
    requires Xor(Times(q, g), Behind(k, s)) == Xor(Times(p, g), Behind(k, t))
    ensures q == p && s == t
  {
    if k == 0 {
      XorSelf(s);
      XorSelf(t);
    } else {
      var s', t' := Behind(k - 1, s), Behind(k - 1, t);
      FirstCoefficient(q, g, s');
      FirstCoefficient(p, g, t');
      XorCancel(2 * Xor(Times(q / 2, g), s'), 2 * Xor(Times(p / 2, g), t'), if q % 2 == 1 then g else 0);
      OneDivision(g, k - 1, q / 2, s, p / 2, t);
    }
  }

  // ----- the checksum

  /** Inverting n bits. */
  lemma {:induction false} XorOnes(n: nat, c: nat)
    requires c < Pow2(n)
    ensures Xor(c, Pow2(n) - 1) == Pow2(n) - 1 - c
  {
    if n > 0 {
      XorOnes(n - 1, c / 2);
      XorStep(c / 2, Pow2(n - 1) - 1, c % 2, 1);
      assert c == 2 * (c / 2) + c % 2;
    } else {
      XorSelf(0);
    }
  }

  lemma {:induction false} Complemented(poly: nat, data: bytes) returns (s: nat)
    requires Poly(poly)
    ensures s == Register(poly, ALL, data) < 0x1_0000_0000 && Crc.Crc(poly, data) == 0xFFFF_FFFF - s
  {
    Crc.Powers();
    BothPolys();
    RegisterInjective(poly, ALL, ALL, data);
    s := Register(poly, ALL, data);
    XorOnes(32, s);
  }

  /** The CRC is the complement of a remainder. */
  lemma {:induction false} CrcIs(poly: nat, g: nat, data: bytes) returns (q: nat, r: nat)
    requires Poly(poly) && g == 2 * poly + 1
    ensures IsRemainder(g, data, q, r) && Crc.Crc(poly, data) == 0xFFFF_FFFF - r
  {
    r := Complemented(poly, data);
    RegisterWord(poly, ALL, data);
    BothPolys();
    XorComm(ALL, FromLE(data));
    q := StepsDivide(poly, 8 * |data|, Xor(FromLE(data), ALL));
  }

  lemma {:induction false} OneRemainder(g: nat, data: bytes, q: nat, r: nat, p: nat, s: nat)
    requires g % 2 == 1 && IsRemainder(g, data, q, r) && IsRemainder(g, data, p, s)
    ensures r == s
  {
    OneDivision(g, 8 * |data|, q, r, p, s);
  }

  ghost predicate IsCrc(g: nat, data: bytes, c: nat) {
    exists q: nat, r: nat :: IsRemainder(g, data, q, r) && c == 0xFFFF_FFFF - r
  }

  lemma {:induction false} OneCrc(g: nat, data: bytes, c: nat, d: nat)
    requires g % 2 == 1 && IsCrc(g, data, c) && IsCrc(g, data, d)
    ensures c == d
  {
    var q: nat, r: nat :| IsRemainder(g, data, q, r) && c == 0xFFFF_FFFF - r;
    var p: nat, s: nat :| IsRemainder(g, data, p, s) && d == 0xFFFF_FFFF - s;
    OneRemainder(g, data, q, r, p, s);
  }

  lemma {:induction false} Has(poly: nat, g: nat, data: bytes)
    requires Poly(poly) && g == 2 * poly + 1
    ensures g % 2 == 1 && IsCrc(g, data, Crc.Crc(poly, data))
  {
    var q, r := CrcIs(poly, g, data);
  }

  /** And of the only one, so that a number is the CRC of some bytes exactly if it is the complement of the
      remainder of their polynomial. */
  lemma {:induction false} CrcIff(poly: nat, g: nat, data: bytes, c: nat)
    requires Poly(poly) && g == 2 * poly + 1
    ensures c == Crc.Crc(poly, data) <==> IsCrc(g, data, c)
  {
    Has(poly, g, data);
    if IsCrc(g, data, c) {
      OneCrc(g, data, c, Crc.Crc(poly, data));
    }
  }

  /** No bytes have the CRC 0. */
  lemma {:induction false} EmptyCrc(poly: nat)
    requires Poly(poly)
    ensures Crc.Crc(poly, []) == 0
  {
    XorSelf(0xFFFF_FFFF);
  }

  /** Data followed by its own CRC, low byte first, leaves the register at one value, whatever the data. */
  lemma {:induction false} Residue(poly: nat, data: bytes)
    requires Poly(poly)
    ensures Register(poly, ALL, data + ToLE(4, Crc.Crc(poly, data))) == Register(poly, ALL, Zeros(4))
  {
    var c := Crc.Crc(poly, data);
    var s := Complemented(poly, data);
    assert Pow256(4) == 0x1_0000_0000 by {
      Pow256IsPow2(4);
      Crc.Powers();
    }
    RegisterAppend(poly, ALL, data, ToLE(4, c));
    RegisterWord(poly, s, ToLE(4, c));
    FromToLE(4, c);
    XorAssoc(s, s, ALL);
    XorSelf(s);
    XorSelf(ALL);
    RegisterZeros(poly, ALL, 4);
  }
}

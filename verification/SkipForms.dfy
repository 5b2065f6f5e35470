/** When the C and the Rust form of a CRC with its four-byte field left out agree, for both polynomials. */
module SkipForms {
  import opened Bits
  import opened Bytes
  import opened Xors
  import opened SkippedField
  import opened Crc

  // ----- thirty-two zero bits, and one

  /** What n bit steps change. */
  function Change(poly: nat, n: nat, c: nat): nat {
    Xor(Steps(poly, n, c), c)
  }

  lemma {:induction false} NoChange(poly: nat, n: nat, c: nat)
    ensures Change(poly, n, c) == 0 <==> Steps(poly, n, c) == c
  {
    XorSelf(c);
    XorCancel(Steps(poly, n, c), c, c);
  }

  /** What twice as many steps change is the change of the change: everything is linear, and equal terms
      cancel. */
  lemma {:induction false} ChangeTwice(poly: nat, n: nat, c: nat)
    ensures Change(poly, n + n, c) == Change(poly, n, Change(poly, n, c))
  {
    var s := Steps(poly, n, c);
    StepsAdd(poly, n, n, c);
    StepsLinear(poly, n, s, c);
    XorComm(s, c);
    XorSwap(Steps(poly, n, s), c, s);
  }

  /** n bit steps change everything but the fixed points, and no change but zero is one. */
  ghost predicate FixedOnly(poly: nat, n: nat, fixed: set<nat>) {
    forall c: nat :: c < Pow2(32) ==>
      (Change(poly, n, c) == 0 <==> c in fixed) && (Change(poly, n, c) in fixed ==> Change(poly, n, c) == 0)
  }

  lemma {:induction false} ChangeFits(poly: nat, n: nat, c: nat)
    requires Poly(poly) && c < Pow2(32)
    ensures Change(poly, n, c) < Pow2(32)
  {
    StepsInjective(poly, n, c, c);
    XorBound(Steps(poly, n, c), c, 32);
  }

  lemma {:induction false} FixedTwice(poly: nat, n: nat, m: nat, fixed: set<nat>)
    requires Poly(poly) && FixedOnly(poly, n, fixed) && 0 in fixed && m == n + n
    ensures FixedOnly(poly, m, fixed)
  {
    forall c: nat | c < Pow2(32)
      ensures (Change(poly, m, c) == 0 <==> c in fixed) && (Change(poly, m, c) in fixed ==> Change(poly, m, c) == 0)
    {
      ChangeFits(poly, n, c);
      ChangeTwice(poly, n, c);
    }
  }

  lemma {:induction false} FixedPower(poly: nat, k: nat, fixed: set<nat>)
    requires Poly(poly) && FixedOnly(poly, 1, fixed) && 0 in fixed
    ensures FixedOnly(poly, Pow2(k), fixed)
  {
    if k == 0 {
      assert Pow2(0) == 1;
    } else {
      FixedPower(poly, k - 1, fixed);
      FixedTwice(poly, Pow2(k - 1), Pow2(k), fixed);
    }
  }

  lemma {:induction false} FourBytes(poly: nat, fixed: set<nat>, n: nat, c: nat)
    requires Poly(poly) && FixedOnly(poly, 1, fixed) && 0 in fixed && n == 32 && c < Pow2(32)
    ensures Steps(poly, n, c) == c <==> c in fixed
  {
    FixedPower(poly, 5, fixed);
    assert Pow2(5) == n by {
      assert Pow2(4) == 16;
    }
    NoChange(poly, n, c);
  }

  // ----- fixed points of one bit step

  /** Whether the number of ones is odd. */
  function Parity(n: nat): (p: nat)
    ensures p < 2
  {
    if n == 0 then 0 else Odd(n % 2, Parity(n / 2))
  }

  lemma {:induction false} ParityXor(a: nat, b: nat)
    ensures Parity(Xor(a, b)) == Odd(Parity(a), Parity(b))
    decreases a + b
  {
    if a != 0 && b != 0 {
      ParityXor(a / 2, b / 2);
      XorStep(a / 2, b / 2, a % 2, b % 2);
      HalfOf(Xor(a / 2, b / 2), Odd(a % 2, b % 2));
      assert a == 2 * (a / 2) + a % 2 && b == 2 * (b / 2) + b % 2;
    }
  }

  lemma {:induction false} ParityStep(poly: nat, c: nat)
    ensures Parity(BitStep(poly, c)) == if c % 2 == 1 && Parity(poly) == 0 then 1 - Parity(c) else Parity(c)
  {
    ParityXor(c / 2, poly);
  }

  lemma {:induction false} OneStep(poly: nat, c: nat)
    ensures Steps(poly, 1, c) == BitStep(poly, c)
  {
    assert Steps(poly, 1, c) == Steps(poly, 0, BitStep(poly, c));
  }

  lemma {:induction false} EvenFixed(poly: nat, c: nat)
    requires BitStep(poly, c) == c && c % 2 == 0
    ensures c == 0
  {
  }

  lemma {:induction false} OneChange(poly: nat, c: nat)
    ensures Change(poly, 1, c) == 0 <==> BitStep(poly, c) == c
    ensures Parity(Change(poly, 1, c)) == if c % 2 == 1 && Parity(poly) == 0 then 1 else 0
  {
    NoChange(poly, 1, c);
    OneStep(poly, c);
    ParityStep(poly, c);
    ParityXor(BitStep(poly, c), c);
  }

  /** Of even weight: nothing but zero stays. */
  lemma {:induction false} EvenWeight(poly: nat)
    requires Parity(poly) == 0
    ensures FixedOnly(poly, 1, {0})
  {
    forall c: nat ensures Change(poly, 1, c) == 0 <==> c in {0} {
      OneChange(poly, c);
      if BitStep(poly, c) == c {
        if c % 2 == 0 {
          EvenFixed(poly, c);
        }
      }
    }
  }

  /** Of odd weight: what stays but zero has odd weight, and no change has. */
  lemma {:induction false} OddWeight(poly: nat, f: nat)
    requires Parity(poly) == 1 && Parity(f) == 1 && f % 2 == 1 && BitStep(poly, f) == f
    ensures FixedOnly(poly, 1, {0, f})
  {
    forall c: nat
      ensures Change(poly, 1, c) == 0 <==> c in {0, f}
      ensures Change(poly, 1, c) in {0, f} ==> Change(poly, 1, c) == 0
    {
      OneChange(poly, c);
      if BitStep(poly, c) == c {
        OneFixed(poly, f, c);
      }
    }
  }

  lemma {:induction false} OneFixed(poly: nat, f: nat, c: nat)
    requires BitStep(poly, f) == f && f % 2 == 1 && BitStep(poly, c) == c
    ensures c in {0, f}
  {
    if c % 2 == 0 {
      EvenFixed(poly, c);
    } else {
      BitStepLinear(poly, c, f);
      XorStep(c / 2, f / 2, 1, 1);
      assert c == 2 * (c / 2) + 1 && f == 2 * (f / 2) + 1;
      EvenFixed(poly, Xor(c, f));
      XorSelf(f);
      XorCancel(c, f, f);
    }
  }

  // ----- the two polynomials

  /** The one register but zero that CRC-32C leaves alone. */
  const CASTAGNOLI_FIXED: nat := 0xFCA4_2DAF

  /** The parity of a hexadecimal digit. */
  function Digit(x: nat): (p: nat)
    ensures p < 2
  {
    if x in {1, 2, 4, 7, 8, 11, 13, 14} then 1 else 0
  }

  lemma {:induction false} Halves(n: nat, x: nat)
    requires x < 2
    ensures Parity(2 * n + x) == Odd(x, Parity(n))
  {
    HalfOf(n, x);
    assert Parity(0) == 0;
  }

  lemma {:induction false} ParityBits(n: nat, a: nat, b: nat, c: nat, d: nat)
    requires a < 2 && b < 2 && c < 2 && d < 2
    ensures Parity(16 * n + (8 * a + 4 * b + 2 * c + d)) == Odd(d, Odd(c, Odd(b, Odd(a, Parity(n)))))
  {
    Halves(n, a);
    Halves(2 * n + a, b);
    Halves(4 * n + 2 * a + b, c);
    Halves(8 * n + 4 * a + 2 * b + c, d);
  }

  lemma {:induction false} DigitBits(a: nat, b: nat, c: nat, d: nat)
    requires a < 2 && b < 2 && c < 2 && d < 2
    ensures forall p :: 0 <= p < 2 ==> Odd(d, Odd(c, Odd(b, Odd(a, p)))) == Odd(p, Digit(8 * a + 4 * b + 2 * c + d))
  {
  }

  lemma {:induction false} ParityDigit(n: nat, x: nat)
    requires x < 16
    ensures Parity(16 * n + x) == Odd(Parity(n), Digit(x))
  {
    var a := if x >= 8 then 1 else 0;
    var b := if x - 8 * a >= 4 then 1 else 0;
    var c := if x - 8 * a - 4 * b >= 2 then 1 else 0;
    var d := x - 8 * a - 4 * b - 2 * c;
    ParityBits(n, a, b, c, d);
    DigitBits(a, b, c, d);
  }

  function Word(digits: seq<nat>): nat {
    if digits == [] then 0 else 16 * Word(digits[..|digits| - 1]) + digits[|digits| - 1]
  }

  function Digits(digits: seq<nat>): (p: nat)
    ensures p < 2
  {
    if digits == [] then 0 else Odd(Digits(digits[..|digits| - 1]), Digit(digits[|digits| - 1]))
  }

  lemma {:induction false} ParityWord(digits: seq<nat>)
    requires forall i :: 0 <= i < |digits| ==> digits[i] < 16
    ensures Parity(Word(digits)) == Digits(digits)
    decreases |digits|
  {
    if digits != [] {
      ParityWord(digits[..|digits| - 1]);
      ParityDigit(Word(digits[..|digits| - 1]), digits[|digits| - 1]);
    }
  }

  lemma {:induction false} EightDigits(d: seq<nat>)
    requires |d| == 8
    ensures Word(d) == 16 * (16 * (16 * (16 * (16 * (16 * (16 * d[0] + d[1]) + d[2]) + d[3]) + d[4]) + d[5]) + d[6]) + d[7]
    ensures Digits(d) == Odd(Odd(Odd(Odd(Odd(Odd(Odd(Digit(d[0]), Digit(d[1])), Digit(d[2])), Digit(d[3])), Digit(d[4])), Digit(d[5])), Digit(d[6])), Digit(d[7]))
  {
    forall k | 0 <= k < 8
      ensures Word(d[..k + 1]) == 16 * Word(d[..k]) + d[k] && Digits(d[..k + 1]) == Odd(Digits(d[..k]), Digit(d[k]))
    {
      assert d[..k + 1][..k] == d[..k];
    }
    assert d[..8] == d && d[..0] == [];
  }

  lemma {:induction false} WeightOf(n: nat, digits: seq<nat>)
    requires |digits| == 8 && n == Word(digits) && forall i :: 0 <= i < |digits| ==> digits[i] < 16
    ensures Parity(n) == Digits(digits)
  {
    ParityWord(digits);
  }

  lemma {:induction false} IeeeWeight(poly: nat)
    requires poly == IEEE
    ensures Parity(poly) == 0
  {
    var d := [0xE, 0xD, 0xB, 8, 8, 3, 2, 0];
    EightDigits(d);
    WeightOf(poly, d);
  }

  lemma {:induction false} CastagnoliWeight(poly: nat)
    requires poly == CASTAGNOLI
    ensures Parity(poly) == 1
  {
    var d := [8, 2, 0xF, 6, 3, 0xB, 7, 8];
    EightDigits(d);
    WeightOf(poly, d);
  }

  lemma {:induction false} FixedWeight(f: nat)
    requires f == CASTAGNOLI_FIXED
    ensures Parity(f) == 1
  {
    var d := [0xF, 0xC, 0xA, 4, 2, 0xD, 0xA, 0xF];
    EightDigits(d);
    WeightOf(f, d);
  }

  lemma {:induction false} XorDigit(a: nat, b: nat, x: nat, y: nat)
    requires x < 16 && y < 16
    ensures Xor(16 * a + x, 16 * b + y) == 16 * Xor(a, b) + Xor(x, y)
  {
    assert Pow2(4) == 16;
    XorJoin(a, b, 4, x, y);
    JoinIs(a, 16, x);
    JoinIs(b, 16, y);
    JoinIs(Xor(a, b), 16, Xor(x, y));
  }

  lemma {:induction false} XorWord(d: seq<nat>, e: seq<nat>, f: seq<nat>)
    requires |d| == |e| == |f|
    requires forall i :: 0 <= i < |d| ==> d[i] < 16 && e[i] < 16 && f[i] == Xor(d[i], e[i])
    ensures Xor(Word(d), Word(e)) == Word(f)
    decreases |d|
  {
    if d != [] {
      var n := |d| - 1;
      XorWord(d[..n], e[..n], f[..n]);
      XorDigit(Word(d[..n]), Word(e[..n]), d[n], e[n]);
    } else {
      XorSelf(0);
    }
  }

  lemma {:induction false} XorDigits()
    ensures Xor(7, 8) == 0xF && Xor(0xE, 2) == 0xC && Xor(5, 0xF) == 0xA && Xor(2, 6) == 4
    ensures Xor(1, 3) == 2 && Xor(6, 0xB) == 0xD && Xor(0xD, 7) == 0xA && Xor(7, 8) == 0xF
  {
  }

  lemma {:induction false} FixedStays(poly: nat, f: nat)
    requires poly == CASTAGNOLI && f == CASTAGNOLI_FIXED
    ensures f % 2 == 1 && BitStep(poly, f) == f
  {
    var d, e, g := [7, 0xE, 5, 2, 1, 6, 0xD, 7], [8, 2, 0xF, 6, 3, 0xB, 7, 8], [0xF, 0xC, 0xA, 4, 2, 0xD, 0xA, 0xF];
    FixedDigits(d, e, g, poly, f);
    XorDigits();
    XorWord(d, e, g);
  }

  lemma {:induction false} FixedDigits(d: seq<nat>, e: seq<nat>, g: seq<nat>, poly: nat, f: nat)
    requires poly == CASTAGNOLI && f == CASTAGNOLI_FIXED
    requires d == [7, 0xE, 5, 2, 1, 6, 0xD, 7] && e == [8, 2, 0xF, 6, 3, 0xB, 7, 8] && g == [0xF, 0xC, 0xA, 4, 2, 0xD, 0xA, 0xF]
    ensures f % 2 == 1 && f / 2 == Word(d) && poly == Word(e) && f == Word(g)
  {
    EightDigits(d);
    EightDigits(e);
    EightDigits(g);
  }

  lemma {:induction false} AgreeOnFixed(poly: nat, fixed: set<nat>, data: bytes, at: nat)
    requires Poly(poly) && FixedOnly(poly, 1, fixed) && 0 in fixed && at + 4 <= |data|
    ensures Crc.Crc(poly, Zeroed(data, at, 4)) == Crc.Crc(poly, Dropped(data, at, 4)) <==> Register(poly, ALL, data[..at]) in fixed
  {
    BothPolys();
    RegisterInjective(poly, ALL, ALL, data[..at]);
    SkipFormsAgreeIff(poly, data, at, 4);
    FourBytes(poly, fixed, 8 * 4, Register(poly, ALL, data[..at]));
  }

  lemma {:induction false} EvenFormsAgree(poly: nat, data: bytes, at: nat)
    requires poly == IEEE && at + 4 <= |data|
    ensures Crc.Crc(poly, Zeroed(data, at, 4)) == Crc.Crc(poly, Dropped(data, at, 4)) <==> Register(poly, ALL, data[..at]) == 0
  {
    BothPolys();
    IeeeWeight(poly);
    EvenWeight(poly);
    AgreeOnFixed(poly, {0}, data, at);
  }

  lemma {:induction false} OddFormsAgree(poly: nat, f: nat, data: bytes, at: nat)
    requires poly == CASTAGNOLI && f == CASTAGNOLI_FIXED && at + 4 <= |data|
    ensures Crc.Crc(poly, Zeroed(data, at, 4)) == Crc.Crc(poly, Dropped(data, at, 4)) <==> Register(poly, ALL, data[..at]) in {0, f}
  {
    BothPolys();
    CastagnoliWeight(poly);
    FixedWeight(f);
    FixedStays(poly, f);
    OddWeight(poly, f);
    AgreeOnFixed(poly, {0, f}, data, at);
  }

  /** CRC-32: the forms agree exactly when the bytes before the field leave the register zero. */
  lemma {:induction false} IeeeFormsAgreeIff(data: bytes, at: nat)
    requires at + 4 <= |data|
    ensures Crc.Crc(IEEE, Zeroed(data, at, 4)) == Crc.Crc(IEEE, Dropped(data, at, 4)) <==> Register(IEEE, ALL, data[..at]) == 0
  {
    EvenFormsAgree(IEEE, data, at);
  }

  /** CRC-32C: zero, or one other register. */
  lemma {:induction false} CastagnoliFormsAgreeIff(data: bytes, at: nat)
    requires at + 4 <= |data|
    ensures Crc.Crc(CASTAGNOLI, Zeroed(data, at, 4)) == Crc.Crc(CASTAGNOLI, Dropped(data, at, 4)) <==>
            Register(CASTAGNOLI, ALL, data[..at]) in {0, CASTAGNOLI_FIXED}
  {
    OddFormsAgree(CASTAGNOLI, CASTAGNOLI_FIXED, data, at);
  }

  /** A field at the very beginning: never, with either polynomial. */
  lemma {:induction false} FirstFieldDisagrees(data: bytes)
    requires 4 <= |data|
    ensures Crc.Crc(IEEE, Zeroed(data, 0, 4)) != Crc.Crc(IEEE, Dropped(data, 0, 4))
    ensures Crc.Crc(CASTAGNOLI, Zeroed(data, 0, 4)) != Crc.Crc(CASTAGNOLI, Dropped(data, 0, 4))
  {
    IeeeFormsAgreeIff(data, 0);
    CastagnoliFormsAgreeIff(data, 0);
    assert data[..0] == [];
  }
}

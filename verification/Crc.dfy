/** CRC-32 (IEEE 802.3) and CRC-32C (section 12.1 of RFC 3720), bit by bit as the Rust runtime computes
    them and by table as the C runtime does. */
module Crc {
  import opened Bits
  import opened Bytes
  import opened Xors
  import opened SkippedField

  const IEEE: nat := 0xEDB8_8320
  const CASTAGNOLI: nat := 0x82F6_3B78
  const ALL: nat := 0xFFFF_FFFF

  /** 32 bits, with the term that makes the bit step injective. */
  predicate Poly(poly: nat) { Pow2(31) <= poly < Pow2(32) }

  lemma {:induction false} BothPolys()
    ensures Poly(IEEE) && Poly(CASTAGNOLI) && ALL == Pow2(32) - 1
  {
    Powers();
  }

  lemma {:induction false} Powers()
    ensures Pow2(8) == 256 && Pow2(31) == 0x8000_0000 && Pow2(32) == 0x1_0000_0000
  {
    Pow2Add(4, 4);
    Pow2Add(8, 8);
    Pow2Add(16, 16);
    assert Pow2(32) == 2 * Pow2(31);
  }

  function BitStep(poly: nat, c: nat): nat {
    if c % 2 == 1 then Xor(c / 2, poly) else c / 2
  }

  function Steps(poly: nat, n: nat, c: nat): nat {
    if n == 0 then c else Steps(poly, n - 1, BitStep(poly, c))
  }

  function Register(poly: nat, c: nat, data: bytes): nat
    decreases |data|
  {
    if data == [] then c else Register(poly, Steps(poly, 8, Xor(c, data[0])), data[1..])
  }

  function Crc(poly: nat, data: bytes): nat {
    Xor(Register(poly, ALL, data), ALL)
  }

  // ----- the bit step

  lemma {:induction false} StepDouble(poly: nat, h: nat, bit: nat)
    requires bit < 2
    ensures BitStep(poly, 2 * h + bit) == if bit == 1 then Xor(h, poly) else h
  {
    HalfOf(h, bit);
  }

  lemma {:induction false} BitStepLinear(poly: nat, a: nat, b: nat)
    ensures BitStep(poly, Xor(a, b)) == Xor(BitStep(poly, a), BitStep(poly, b))
  {
    var x, y, p, q := a / 2, b / 2, a % 2, b % 2;
    assert a == 2 * x + p && b == 2 * y + q;
    XorStep(x, y, p, q);
    StepDouble(poly, Xor(x, y), Odd(p, q));
    OneStepLinear(poly, x, y, p, q);
  }

  lemma {:induction false} OneStepLinear(poly: nat, x: nat, y: nat, p: nat, q: nat)
    requires p < 2 && q < 2
    ensures Xor(if p == 1 then Xor(x, poly) else x, if q == 1 then Xor(y, poly) else y)
         == if Odd(p, q) == 1 then Xor(Xor(x, y), poly) else Xor(x, y)
  {
    if p == 1 && q == 1 {
      XorSwap(x, y, poly);
    } else if p == 1 {
      XorSwap(x, y, poly);
    } else if q == 1 {
      XorAssoc(x, y, poly);
    }
  }

  lemma {:induction false} StepsLinear(poly: nat, n: nat, a: nat, b: nat)
    ensures Steps(poly, n, Xor(a, b)) == Xor(Steps(poly, n, a), Steps(poly, n, b))
  {
    if n != 0 {
      BitStepLinear(poly, a, b);
      StepsLinear(poly, n - 1, BitStep(poly, a), BitStep(poly, b));
    }
  }

  /** The polynomial's top bit tells whether a step shifted a one out. */
  lemma {:induction false} BitStepRange(poly: nat, c: nat)
    requires Poly(poly) && c < Pow2(32)
    ensures BitStep(poly, c) < Pow2(32)
    ensures BitStep(poly, c) >= Pow2(31) <==> c % 2 == 1
  {
    Powers();
    XorBound(c / 2, poly, 32);
    XorTop(c / 2, poly, 31);
  }

  lemma {:induction false} BitStepInjective(poly: nat, a: nat, b: nat)
    requires Poly(poly) && a < Pow2(32) && b < Pow2(32) && BitStep(poly, a) == BitStep(poly, b)
    ensures a == b
  {
    BitStepRange(poly, a);
    BitStepRange(poly, b);
    XorCancel(a / 2, b / 2, poly);
    assert a == 2 * (a / 2) + a % 2 && b == 2 * (b / 2) + b % 2;
  }

  lemma {:induction false} StepsInjective(poly: nat, n: nat, a: nat, b: nat)
    requires Poly(poly) && a < Pow2(32) && b < Pow2(32)
    ensures Steps(poly, n, a) < Pow2(32)
    ensures Steps(poly, n, a) == Steps(poly, n, b) <==> a == b
  {
    if n != 0 {
      BitStepRange(poly, a);
      BitStepRange(poly, b);
      StepsInjective(poly, n - 1, BitStep(poly, a), BitStep(poly, b));
      if BitStep(poly, a) == BitStep(poly, b) {
        BitStepInjective(poly, a, b);
      }
    }
  }

  lemma {:induction false} StepsAdd(poly: nat, m: nat, n: nat, c: nat)
    ensures Steps(poly, m + n, c) == Steps(poly, n, Steps(poly, m, c))
  {
    if m != 0 {
      StepsAdd(poly, m - 1, n, BitStep(poly, c));
    }
  }

  /** Steps over zero bits only shift. */
  lemma {:induction false} ShiftOut(poly: nat, n: nat, h: nat)
    ensures Steps(poly, n, Join(h, Pow2(n), 0)) == h
  {
    if n == 0 {
      JoinIs(h, 1, 0);
    } else {
      JoinDouble(h, Pow2(n - 1), 0, 0);
      StepDouble(poly, Join(h, Pow2(n - 1), 0), 0);
      ShiftOut(poly, n - 1, h);
    }
  }

  lemma {:induction false} RegisterAppend(poly: nat, c: nat, a: bytes, b: bytes)
    ensures Register(poly, c, a + b) == Register(poly, Register(poly, c, a), b)
    decreases |a|
  {
    if a == [] {
      assert a + b == b;
    } else {
      RegisterAppend(poly, Steps(poly, 8, Xor(c, a[0])), a[1..], b);
      assert (a + b)[1..] == a[1..] + b;
    }
  }

  lemma {:induction false} ByteStepInjective(poly: nat, c: nat, d: nat, x: byte)
    requires Poly(poly) && c < Pow2(32) && d < Pow2(32)
    ensures Steps(poly, 8, Xor(c, x)) < Pow2(32)
    ensures Steps(poly, 8, Xor(c, x)) == Steps(poly, 8, Xor(d, x)) <==> c == d
  {
    Powers();
    XorBound(c, x, 32);
    XorBound(d, x, 32);
    StepsInjective(poly, 8, Xor(c, x), Xor(d, x));
    XorCancel(c, d, x);
  }

  lemma {:induction false} RegisterInjective(poly: nat, c: nat, d: nat, data: bytes)
    requires Poly(poly) && c < Pow2(32) && d < Pow2(32)
    ensures Register(poly, c, data) < Pow2(32)
    ensures Register(poly, c, data) == Register(poly, d, data) <==> c == d
    decreases |data|
  {
    if data != [] {
      var x := data[0];
      ByteStepInjective(poly, c, d, x);
      ByteStepInjective(poly, d, c, x);
      RegisterInjective(poly, Steps(poly, 8, Xor(c, x)), Steps(poly, 8, Xor(d, x)), data[1..]);
    }
  }

  /** Bytes taken in one after another act like one little-endian number. */
  lemma {:induction false} RegisterWord(poly: nat, c: nat, data: bytes)
    ensures Register(poly, c, data) == Steps(poly, 8 * |data|, Xor(c, FromLE(data)))
    decreases |data|
  {
    if data == [] {
      XorSelf(c);
    } else {
      var x, rest := data[0], data[1..];
      RegisterWord(poly, Steps(poly, 8, Xor(c, x)), rest);
      RegisterByte(poly, c, x, FromLE(rest));
      StepsAdd(poly, 8, 8 * |rest|, Xor(c, FromLE(data)));
    }
  }

  lemma {:induction false} RegisterByte(poly: nat, c: nat, x: byte, w: nat)
    ensures Xor(Steps(poly, 8, Xor(c, x)), w) == Steps(poly, 8, Xor(c, 256 * w + x))
  {
    Powers();
    ShiftOut(poly, 8, w);
    StepsLinear(poly, 8, Xor(c, x), Join(w, 256, 0));
    XorAssoc(c, x, Join(w, 256, 0));
    ByteBelow(w, x);
  }

  lemma {:induction false} ByteBelow(w: nat, x: byte)
    ensures Xor(x, Join(w, 256, 0)) == 256 * w + x
  {
    Powers();
    XorJoin(0, w, 8, x, 0);
    XorSelf(w);
    XorSelf(x);
    JoinIs(w, 256, x);
  }

  /** Any change confined to four consecutive bytes changes the checksum. */
  lemma {:induction false} BurstDetected(poly: nat, head: bytes, a: bytes, b: bytes, tail: bytes)
    requires Poly(poly) && |a| == |b| <= 4 && a != b
    ensures Crc(poly, head + a + tail) != Crc(poly, head + b + tail)
  {
    BothPolys();
    var c := Register(poly, ALL, head);
    RegisterInjective(poly, ALL, ALL, head);
    RegisterAppend(poly, ALL, head + a, tail);
    RegisterAppend(poly, ALL, head + b, tail);
    RegisterAppend(poly, ALL, head, a);
    RegisterAppend(poly, ALL, head, b);
    WordsDiffer(poly, c, a, b);
    RegisterInjective(poly, Register(poly, c, a), Register(poly, c, b), tail);
    XorCancel(Register(poly, Register(poly, c, a), tail), Register(poly, Register(poly, c, b), tail), ALL);
  }

  lemma {:induction false} WordsDiffer(poly: nat, c: nat, a: bytes, b: bytes)
    requires Poly(poly) && c < Pow2(32) && |a| == |b| <= 4 && a != b
    ensures Register(poly, c, a) < Pow2(32) && Register(poly, c, b) < Pow2(32)
    ensures Register(poly, c, a) != Register(poly, c, b)
  {
    RegisterWord(poly, c, a);
    RegisterWord(poly, c, b);
    var x, y := FromLE(a), FromLE(b);
    ToFromLE(a);
    ToFromLE(b);
    Pow256IsPow2(|a|);
    Pow2Mono(8 * |a|, 32);
    XorBound(c, x, 32);
    XorBound(c, y, 32);
    XorCancel(x, y, c);
    StepsInjective(poly, 8 * |a|, Xor(c, x), Xor(c, y));
    StepsInjective(poly, 8 * |a|, Xor(c, y), Xor(c, x));
  }

  /** The same for two buffers given by where they differ. */
  lemma {:induction false} NearbyChangesDetected(poly: nat, a: bytes, b: bytes, i: nat)
    requires Poly(poly) && |a| == |b| && a != b
    requires forall k :: 0 <= k < |a| && !(i <= k < i + 4) ==> a[k] == b[k]
    ensures Crc(poly, a) != Crc(poly, b)
  {
    var lo := if i < |a| then i else |a|;
    var hi := if i + 4 < |a| then i + 4 else |a|;
    assert a == a[..lo] + a[lo..hi] + a[hi..];
    assert b == a[..lo] + b[lo..hi] + a[hi..];
    BurstDetected(poly, a[..lo], a[lo..hi], b[lo..hi], a[hi..]);
  }

  // ----- the table form

  /** Each entry is eight bit steps of its index. */
  predicate TableFor(table: seq<nat>, poly: nat) {
    |table| == 256 && forall i :: 0 <= i < 256 ==> table[i] == Steps(poly, 8, i)
  }

  lemma {:induction false} TableStep(table: seq<nat>, poly: nat, c: nat, x: byte)
    requires TableFor(table, poly)
    ensures And(Xor(c, x), 255) < 256
    ensures Xor(table[And(Xor(c, x), 255)], Quot(c, 256)) == Steps(poly, 8, Xor(c, x))
  {
    Powers();
    var q, r := Quot(c, 256), Rem(c, 256);
    var i := Xor(r, x);
    SplitJoin(c, 256);
    XorJoin(q, 0, 8, r, x);
    XorSelf(q);
    XorBound(r, x, 8);
    AndMask(Xor(c, x), 8);
    JoinSplit(q, 256, i);
    XorJoin(q, 0, 8, 0, i);
    XorSelf(i);
    StepsLinear(poly, 8, Join(q, 256, 0), i);
    ShiftOut(poly, 8, q);
    XorComm(q, table[i]);
  }

  // ----- the loops

  lemma {:induction false} LowBit(c: nat)
    ensures And(c, 1) == c % 2
  {
    assert Pow2(1) == 2;
    AndMask(c, 1);
    QuotRemAre(c, 2);
  }

  /** The Rust runtime, bit by bit. */
  method Bitwise(data: bytes, poly: nat) returns (crc: nat)
    ensures crc == Crc(poly, data)
  {
    crc := ALL;
    assert data[0..] == data;
    for i := 0 to |data|
      invariant Register(poly, crc, data[i..]) == Register(poly, ALL, data)
    {
      assert data[i..][1..] == data[i + 1..];
      crc := EightSteps(Xor(crc, data[i]), poly);
    }
    crc := Xor(crc, ALL);
  }

  /** The C runtime, by table. */
  method Tabled(data: bytes, table: seq<nat>, ghost poly: nat) returns (crc: nat)
    requires TableFor(table, poly)
    ensures crc == Crc(poly, data)
  {
    crc := ALL;
    assert data[0..] == data;
    for i := 0 to |data|
      invariant Register(poly, crc, data[i..]) == Register(poly, ALL, data)
    {
      assert data[i..][1..] == data[i + 1..];
      TableStep(table, poly, crc, data[i]);
      crc := Xor(table[And(Xor(crc, data[i]), 255)], Quot(crc, 256));
    }
    crc := Xor(crc, ALL);
  }

  // ----- leaving out the checksum field

  /** The Rust runtime reads the field's bytes as zero. */
  method BitwiseSkip(data: bytes, poly: nat, at: nat, n: nat) returns (crc: nat)
    requires at + n <= |data|
    ensures crc == Crc(poly, Zeroed(data, at, n))
  {
    crc := ALL;
    ghost var z := Zeroed(data, at, n);
    assert z[0..] == z;
    for i := 0 to |data|
      invariant Register(poly, crc, z[i..]) == Register(poly, ALL, z)
    {
      var b := if at <= i < at + n then 0 else data[i];
      ZeroedAt(data, at, n, i);
      assert z[i..][0] == b && z[i..][1..] == z[i + 1..];
      crc := EightSteps(Xor(crc, b), poly);
    }
    crc := Xor(crc, ALL);
  }

  /** Where byte i of the buffer is in the buffer without the field. */
  function DroppedIndex(i: nat, at: nat, n: nat): nat {
    if i <= at then i else if i <= at + n then at else i - n
  }

  lemma {:induction false} DroppedFrom(data: bytes, at: nat, n: nat, i: nat)
    requires at + n <= |data| && i < |data|
    ensures var d, k := Dropped(data, at, n), DroppedIndex(i, at, n);
            && k <= |d|
            && (at <= i < at + n ==> DroppedIndex(i + 1, at, n) == k)
            && (!(at <= i < at + n) ==> k < |d| && d[k] == data[i] && DroppedIndex(i + 1, at, n) == k + 1 && d[k..][1..] == d[k + 1..])
  {
  }

  /** The C runtime passes over the field's bytes. */
  method TabledSkip(data: bytes, table: seq<nat>, ghost poly: nat, at: nat, n: nat) returns (crc: nat)
    requires TableFor(table, poly) && at + n <= |data|
    ensures crc == Crc(poly, Dropped(data, at, n))
  {
    crc := ALL;
    ghost var d := Dropped(data, at, n);
    assert d[0..] == d && d[|d|..] == [];
    for i := 0 to |data|
      invariant DroppedIndex(i, at, n) <= |d|
      invariant Register(poly, crc, d[DroppedIndex(i, at, n)..]) == Register(poly, ALL, d)
    {
      DroppedFrom(data, at, n, i);
      if i >= at && i < at + n {
        continue;
      }
      TableStep(table, poly, crc, data[i]);
      crc := Xor(table[And(Xor(crc, data[i]), 255)], Quot(crc, 256));
    }
    crc := Xor(crc, ALL);
  }

  method EightSteps(start: nat, poly: nat) returns (crc: nat)
    ensures crc == Steps(poly, 8, start)
  {
    crc := start;
    for j := 0 to 8
      invariant Steps(poly, 8 - j, crc) == Steps(poly, 8, start)
    {
      LowBit(crc);
      if And(crc, 1) != 0 {
        crc := Xor(crc / 2, poly);
      } else {
        crc := crc / 2;
      }
    }
  }

  lemma {:induction false} RegisterZeros(poly: nat, c: nat, n: nat)
    ensures Register(poly, c, Zeros(n)) == Steps(poly, 8 * n, c)
    decreases n
  {
    if n != 0 {
      XorSelf(c);
      RegisterZeros(poly, Steps(poly, 8, c), n - 1);
      assert Zeros(n)[1..] == Zeros(n - 1);
      StepsAdd(poly, 8, 8 * (n - 1), c);
    }
  }

  /** The two skip forms agree exactly when the register comes out of the zero bytes as it went in. */
  lemma {:induction false} SkipFormsAgreeIff(poly: nat, data: bytes, at: nat, n: nat)
    requires Poly(poly) && at + n <= |data|
    ensures var c := Register(poly, ALL, data[..at]);
            Crc(poly, Zeroed(data, at, n)) == Crc(poly, Dropped(data, at, n)) <==> Steps(poly, 8 * n, c) == c
  {
    BothPolys();
    var head, tail := data[..at], data[at + n..];
    var c := Register(poly, ALL, head);
    var z := Steps(poly, 8 * n, c);
    RegisterInjective(poly, ALL, ALL, head);
    RegisterAppend(poly, ALL, head, tail);
    RegisterAppend(poly, ALL, head + Zeros(n), tail);
    RegisterAppend(poly, ALL, head, Zeros(n));
    RegisterZeros(poly, c, n);
    StepsInjective(poly, 8 * n, c, c);
    RegisterInjective(poly, z, c, tail);
    XorCancel(Register(poly, z, tail), Register(poly, c, tail), ALL);
  }
}

/** Continuation-bit varints (section 1.5.5 of MQTT 5.0 is the seven-bit little-endian instance). */
module ContVarInt {
  import opened Bits
  import opened Bytes
  import opened Outcome

  /** The Rust backend marks a continued byte with every bit above the value bits and always writes the
      low group first; the C backend marks it with the top bit and follows the declared byte order. */
  datatype Dialect = C | Rust

  datatype Format = Format(valueBits: nat, maxBytes: nat, bigEndian: bool, dialect: Dialect)

  ghost predicate Valid(f: Format) {
    && 1 <= f.valueBits <= 7
    && f.maxBytes >= 1
    && (f.maxBytes - 1) * f.valueBits < 64
    && (f.dialect.Rust? ==> !f.bigEndian)
  }

  /** One more than the largest value of one byte. */
  function Base(f: Format): (n: nat)
    requires 1 <= f.valueBits <= 7
    ensures 2 <= n <= 128
  {
    SmallPowers();
    Pow2Mono(1, f.valueBits);
    Pow2Mono(f.valueBits, 7);
    Pow2(f.valueBits)
  }

  lemma {:induction false} SmallPowers()
    ensures Pow2(1) == 2 && Pow2(7) == 128
  {
    assert Pow2(4) == 16;
  }

  /** What is added to a byte to say that another follows. */
  function Mark(f: Format): (m: nat)
    requires 1 <= f.valueBits <= 7
    ensures Base(f) <= 128 <= m && m + Base(f) <= 256
  {
    if f.dialect.C? then 128 else 256 - Base(f)
  }

  predicate Continues(f: Format, x: byte)
    requires 1 <= f.valueBits <= 7
  {
    if f.dialect.C? then x >= 128 else x >= Base(f)
  }

  /** Number of groups a value takes. */
  function Groups(base: nat, v: nat): (n: nat)
    requires base >= 2
    ensures n >= 1
  {
    if v < base then 1 else QuotLess(v, base); 1 + Groups(base, Quot(v, base))
  }

  function WireSize(f: Format, v: nat): nat
    requires 1 <= f.valueBits <= 7
  {
    if Groups(Base(f), v) > f.maxBytes then f.maxBytes else Groups(Base(f), v)
  }

  /** Low group first: each byte but the last carries the mark. */
  function EncodeLE(base: nat, mark: nat, v: nat): (b: bytes)
    requires 2 <= base && base + mark <= 256
    ensures |b| == Groups(base, v)
  {
    if v < base then [v] else QuotLess(v, base); [Rem(v, base) + mark] + EncodeLE(base, mark, Quot(v, base))
  }

  /** High group first, every byte marked; zero takes no byte. */
  function MarkedBE(base: nat, mark: nat, v: nat): (b: bytes)
    requires 2 <= base && base + mark <= 256
    ensures |b| == if v == 0 then 0 else Groups(base, v)
  {
    if v == 0 then [] else QuotLess(v, base); MarkedBE(base, mark, Quot(v, base)) + [Rem(v, base) + mark]
  }

  function EncodeBE(base: nat, mark: nat, v: nat): (b: bytes)
    requires 2 <= base && base + mark <= 256
    ensures |b| == Groups(base, v)
  {
    MarkedBE(base, mark, Quot(v, base)) + [Rem(v, base)]
  }

  function Encode(f: Format, v: nat): (b: bytes)
    requires 1 <= f.valueBits <= 7
    ensures |b| == Groups(Base(f), v)
  {
    if f.bigEndian then EncodeBE(Base(f), Mark(f), v) else EncodeLE(Base(f), Mark(f), v)
  }

  function Serialize(f: Format, v: nat): Result<bytes>
    requires 1 <= f.valueBits <= 7
  {
    if Groups(Base(f), v) > f.maxBytes then Err(Overflow) else Ok(Encode(f, v))
  }

  /** The groups of at most `left` bytes, low group first, as an unbounded number. */
  function DecodeLE(f: Format, b: bytes, left: nat): Result<(nat, bytes)>
    requires 1 <= f.valueBits <= 7
    decreases left
  {
    if left == 0 then Err(Overflow)
    else if b == [] then Err(ShortBuffer)
    else if !Continues(f, b[0]) then Ok((Rem(b[0], Base(f)), b[1..]))
    else
      var (n, r) :- DecodeLE(f, b[1..], left - 1);
      Ok((Join(n, Base(f), Rem(b[0], Base(f))), r))
  }

  /** The same high group first; `acc` is the value so far, kept in 64 bits. */
  function DecodeBE(f: Format, b: bytes, left: nat, acc: nat): Result<(nat, bytes)>
    requires 1 <= f.valueBits <= 7
    decreases left
  {
    if left == 0 then Err(Overflow)
    else if b == [] then Err(ShortBuffer)
    else
      var next := Rem(Join(acc, Base(f), Rem(b[0], Base(f))), U64);
      if !Continues(f, b[0]) then Ok((next, b[1..])) else DecodeBE(f, b[1..], left - 1, next)
  }

  const U64: nat := 0x1_0000_0000_0000_0000

  /** The emitted parse function: bits shifted out of the 64-bit accumulator are lost. */
  function Parse(f: Format, b: bytes): Result<(nat, bytes)>
    requires 1 <= f.valueBits <= 7
  {
    if f.bigEndian then DecodeBE(f, b, f.maxBytes, 0)
    else
      var (n, r) :- DecodeLE(f, b, f.maxBytes);
      Ok((Rem(n, U64), r))
  }

  lemma {:induction false} Digit(f: Format, d: nat)
    requires 1 <= f.valueBits <= 7 && d < Base(f)
    ensures d < 256 && !Continues(f, d) && Rem(d, Base(f)) == d
    ensures d + Mark(f) < 256 && Continues(f, d + Mark(f)) && Rem(d + Mark(f), Base(f)) == d
  {
    MarkMultiple(f);
    var k: nat :| Mark(f) == Join(k, Base(f), 0);
    JoinAdd(k, Base(f), d);
    JoinSplit(k, Base(f), d);
  }

  lemma {:induction false} JoinAdd(hi: nat, d: nat, lo: nat)
    ensures Join(hi, d, lo) == Join(hi, d, 0) + lo
  {
    if hi != 0 {
      JoinAdd(hi - 1, d, lo);
    }
  }

  lemma {:induction false} MarkMultiple(f: Format)
    requires 1 <= f.valueBits <= 7
    ensures exists k: nat :: Mark(f) == Join(k, Base(f), 0)
  {
    SmallPowers();
    Pow2Add(f.valueBits, 7 - f.valueBits);
    Pow2Add(f.valueBits, 8 - f.valueBits);
    var k := Pow2(7 - f.valueBits);
    assert 128 == k * Base(f);
    assert Pow2(8 - f.valueBits) == 2 * k;
    assert 256 - Base(f) == (2 * k - 1) * Base(f);
    JoinIs(k, Base(f), 0);
    JoinIs(2 * k - 1, Base(f), 0);
  }

  lemma {:induction false} DecodeEncodeLE(f: Format, v: nat, left: nat, tail: bytes)
    requires 1 <= f.valueBits <= 7 && Groups(Base(f), v) <= left
    ensures DecodeLE(f, EncodeLE(Base(f), Mark(f), v) + tail, left) == Ok((v, tail))
    decreases v
  {
    var e := EncodeLE(Base(f), Mark(f), v);
    Digit(f, Rem(v, Base(f)));
    if v < Base(f) {
      assert (e + tail)[1..] == tail;
    } else {
      QuotLess(v, Base(f));
      DecodeEncodeLE(f, Quot(v, Base(f)), left - 1, tail);
      assert (e + tail)[1..] == EncodeLE(Base(f), Mark(f), Quot(v, Base(f))) + tail;
      SplitJoin(v, Base(f));
    }
  }

  /** Reading the marked groups of u brings the accumulator from 0 to u. */
  lemma {:induction false} DecodeMarkedBE(f: Format, u: nat, left: nat, rest: bytes)
    requires 1 <= f.valueBits <= 7 && u < U64
    requires |MarkedBE(Base(f), Mark(f), u)| < left
    ensures DecodeBE(f, MarkedBE(Base(f), Mark(f), u) + rest, left, 0)
         == DecodeBE(f, rest, left - |MarkedBE(Base(f), Mark(f), u)|, u)
    decreases u
  {
    var m := MarkedBE(Base(f), Mark(f), u);
    if u == 0 {
      assert m + rest == rest;
    } else {
      var q, d := Quot(u, Base(f)), Rem(u, Base(f));
      var init := MarkedBE(Base(f), Mark(f), q);
      QuotLess(u, Base(f));
      DecodeMarkedBE(f, q, left, [d + Mark(f)] + rest);
      assert m + rest == init + ([d + Mark(f)] + rest);
      SplitJoin(u, Base(f));
      StepBE(f, d, left - |init|, q, rest);
    }
  }

  lemma {:induction false} StepBE(f: Format, d: nat, left: nat, acc: nat, rest: bytes)
    requires 1 <= f.valueBits <= 7 && d < Base(f) && left > 0 && Join(acc, Base(f), d) < U64
    ensures d + Mark(f) < 256
    ensures DecodeBE(f, [d + Mark(f)] + rest, left, acc) == DecodeBE(f, rest, left - 1, Join(acc, Base(f), d))
  {
    Digit(f, d);
    assert ([d + Mark(f)] + rest)[1..] == rest;
  }

  lemma {:induction false} DecodeEncodeBE(f: Format, v: nat, left: nat, tail: bytes)
    requires 1 <= f.valueBits <= 7 && v < U64 && Groups(Base(f), v) <= left
    ensures DecodeBE(f, EncodeBE(Base(f), Mark(f), v) + tail, left, 0) == Ok((v, tail))
  {
    var u, d := Quot(v, Base(f)), Rem(v, Base(f));
    if v > 0 { QuotLess(v, Base(f)); }
    DecodeMarkedBE(f, u, left, [d] + tail);
    assert EncodeBE(Base(f), Mark(f), v) + tail == MarkedBE(Base(f), Mark(f), u) + ([d] + tail);
    Digit(f, d);
    SplitJoin(v, Base(f));
    assert ([d] + tail)[1..] == tail;
  }

  /** parse undoes serialize in both byte orders and dialects; the length is wire_size(v). */
  lemma {:induction false} RoundTrip(f: Format, v: nat, tail: bytes)
    requires Valid(f) && v < U64
    ensures Serialize(f, v).Ok? <==> v < Power(Base(f), f.maxBytes)
    ensures Serialize(f, v).Ok? ==>
              && |Serialize(f, v).value| == WireSize(f, v) > 0
              && Parse(f, Serialize(f, v).value + tail) == Ok((v, tail))
    ensures Serialize(f, v).Err? ==> Serialize(f, v) == Err(Overflow)
  {
    GroupsBound(Base(f), v, f.maxBytes);
    if Groups(Base(f), v) <= f.maxBytes {
      if f.bigEndian {
        DecodeEncodeBE(f, v, f.maxBytes, tail);
      } else {
        DecodeEncodeLE(f, v, f.maxBytes, tail);
      }
    }
  }

  function Power(base: nat, n: nat): (p: nat)
    requires base >= 1
    ensures p >= 1
  {
    if n == 0 then 1 else Power(base, n - 1) * base
  }

  /** A value takes at most n groups exactly when it is below base^n. */
  lemma {:induction false} GroupsBound(base: nat, v: nat, n: nat)
    requires base >= 2 && n >= 1
    ensures Groups(base, v) <= n <==> v < Power(base, n)
  {
    if n == 1 {
      assert Power(base, 1) == base;
    } else if v < base {
      PowerGrows(base, n);
    } else {
      QuotLess(v, base);
      GroupsBound(base, Quot(v, base), n - 1);
      QuotBelow(v, base, Power(base, n - 1));
    }
  }

  lemma {:induction false} PowerGrows(base: nat, n: nat)
    requires base >= 2 && n >= 1
    ensures Power(base, n) >= base
  {
    MulGe(base, Power(base, n - 1));
  }

  lemma {:induction false} QuotBelow(v: nat, d: nat, m: nat)
    requires d > 0
    ensures Quot(v, d) < m <==> v < m * d
  {
    SplitJoin(v, d);
    if Quot(v, d) < m {
      JoinLt(Quot(v, d), m, d, Rem(v, d));
    }
    if v < m * d {
      QuotLt(v, m, d);
    }
  }

  /** A successful parse of k bytes gives a value below base^k, so its encoding has at most k bytes:
      no byte string that parses to v is shorter than serialize's. */
  lemma {:induction false} ParseSound(f: Format, b: bytes)
    requires Valid(f) && Parse(f, b).Ok?
    ensures var (v, r) := Parse(f, b).value;
            && |r| < |b| && r == b[|b| - |r|..]
            && v < U64
            && Serialize(f, v).Ok?
            && |Serialize(f, v).value| <= |b| - |r|
  {
    var (v, r) := Parse(f, b).value;
    if f.bigEndian {
      DecodeBESound(f, b, f.maxBytes, 0, 0);
    } else {
      DecodeLESound(f, b, f.maxBytes);
      var n := DecodeLE(f, b, f.maxBytes).value.0;
      assert Rem(n, U64) <= n;
    }
    var k := |b| - |r|;
    GroupsBound(Base(f), v, k);
  }

  lemma {:induction false} DecodeLESound(f: Format, b: bytes, left: nat)
    requires 1 <= f.valueBits <= 7 && DecodeLE(f, b, left).Ok?
    ensures var (n, r) := DecodeLE(f, b, left).value;
            && |r| < |b| && r == b[|b| - |r|..] && |b| - |r| <= left
            && n < Power(Base(f), |b| - |r|)
    decreases left
  {
    if Continues(f, b[0]) {
      DecodeLESound(f, b[1..], left - 1);
      var (n, r) := DecodeLE(f, b[1..], left - 1).value;
      JoinLt(n, Power(Base(f), |b| - 1 - |r|), Base(f), Rem(b[0], Base(f)));
    } else {
      assert Power(Base(f), 1) == Base(f);
    }
  }

  lemma {:induction false} DecodeBESound(f: Format, b: bytes, left: nat, acc: nat, read: nat)
    requires 1 <= f.valueBits <= 7 && DecodeBE(f, b, left, acc).Ok?
    requires acc < Power(Base(f), read)
    ensures var (v, r) := DecodeBE(f, b, left, acc).value;
            && |r| < |b| && r == b[|b| - |r|..] && |b| - |r| <= left
            && v < U64 && v < Power(Base(f), read + |b| - |r|)
    decreases left
  {
    var d := Rem(b[0], Base(f));
    JoinLt(acc, Power(Base(f), read), Base(f), d);
    var next := Rem(Join(acc, Base(f), d), U64);
    assert next <= Join(acc, Base(f), d);
    assert next < Power(Base(f), read + 1);
    if Continues(f, b[0]) {
      DecodeBESound(f, b[1..], left - 1, next, read + 1);
    }
  }

  // ----- what the bytes stand for

  lemma {:induction false} PowerStep(v: nat, base: nat, i: nat)
    requires base >= 1 && i >= 1
    ensures v / Power(base, i) == (v / base) / Power(base, i - 1)
  {
    QuotTwice(v, Power(base, i - 1), base);
  }

  /** Low group first: byte i holds digit i, with the mark if another follows. */
  lemma {:induction false} LowFirstAt(base: nat, mark: nat, v: nat, i: nat)
    requires 2 <= base && base + mark <= 256 && i < Groups(base, v)
    ensures EncodeLE(base, mark, v)[i] == v / Power(base, i) % base + if i + 1 < Groups(base, v) then mark else 0
    decreases i
  {
    QuotRemAre(v, base);
    if v >= base {
      QuotLess(v, base);
      if i > 0 {
        LowFirstAt(base, mark, v / base, i - 1);
        PowerStep(v, base, i);
      }
    } else {
      SmallQuot(v, base);
    }
  }

  lemma {:induction false} SmallQuot(v: nat, d: nat)
    requires v < d
    ensures v / d == 0 && v % d == v
  {
  }

  lemma {:induction false} MarkedAt(base: nat, mark: nat, v: nat, i: nat)
    requires 2 <= base && base + mark <= 256 && v > 0 && i < Groups(base, v)
    ensures MarkedBE(base, mark, v)[Groups(base, v) - 1 - i] == v / Power(base, i) % base + mark
    decreases i
  {
    QuotRemAre(v, base);
    QuotLess(v, base);
    if v >= base {
      if i > 0 {
        MarkedAt(base, mark, v / base, i - 1);
        PowerStep(v, base, i);
      }
    } else {
      SmallQuot(v, base);
    }
  }

  /** High group first: the last byte holds digit 0, without the mark. */
  lemma {:induction false} HighFirstAt(base: nat, mark: nat, v: nat, i: nat)
    requires 2 <= base && base + mark <= 256 && i < Groups(base, v)
    ensures EncodeBE(base, mark, v)[Groups(base, v) - 1 - i] == v / Power(base, i) % base + if i > 0 then mark else 0
  {
    QuotRemAre(v, base);
    if i > 0 {
      MarkedAt(base, mark, v / base, i - 1);
      PowerStep(v, base, i);
    }
  }

  /** Digit i of a value is in byte i or, high group first, in byte i from the end; all bytes but the last carry the
      mark: the top bit in C, every bit above the value bits in Rust. */
  lemma {:induction false} EncodeIs(f: Format, v: nat, i: nat)
    requires Valid(f) && i < |Encode(f, v)|
    ensures var base, n := Pow2(f.valueBits), |Encode(f, v)|;
            var at := if f.bigEndian then n - 1 - i else i;
            && (forall k: nat :: k >= 1 ==> (n <= k <==> v < Power(base, k)))
            && Encode(f, v)[at] == v / Power(base, i) % base
                 + if at == n - 1 then 0 else if f.dialect.C? then 128 else 256 - base
  {
    forall k: nat | k >= 1 ensures Groups(Base(f), v) <= k <==> v < Power(Base(f), k) {
      GroupsBound(Base(f), v, k);
    }
    if f.bigEndian {
      HighFirstAt(Base(f), Mark(f), v, i);
    } else {
      LowFirstAt(Base(f), Mark(f), v, i);
    }
  }

  /** The digits of some bytes as one number, the first one lowest. */
  function LowFirst(base: nat, ds: bytes): nat
    requires base > 0
  {
    if ds == [] then 0 else ds[0] % base + base * LowFirst(base, ds[1..])
  }

  /** The first one highest. */
  function HighFirst(base: nat, ds: bytes): nat
    requires base > 0
  {
    if ds == [] then 0 else ds[0] % base * Power(base, |ds| - 1) + HighFirst(base, ds[1..])
  }

  /** The first k bytes say that another follows. */
  predicate AllContinue(f: Format, b: bytes, k: nat)
    requires 1 <= f.valueBits <= 7
  {
    k <= |b| && forall i :: 0 <= i < k ==> b[i] >= if f.dialect.C? then 128 else Pow2(f.valueBits)
  }

  lemma {:induction false} AllContinueTail(f: Format, b: bytes, k: nat)
    requires 1 <= f.valueBits <= 7 && k > 0 && AllContinue(f, b, k)
    ensures Continues(f, b[0]) && AllContinue(f, b[1..], k - 1)
  {
  }

  lemma {:induction false} LowFirstStep(base: nat, b: bytes, k: nat)
    requires base > 0 && k < |b|
    ensures LowFirst(base, b[..k + 1]) == b[0] % base + base * LowFirst(base, b[1..][..k])
  {
    assert b[..k + 1][1..] == b[1..][..k];
  }

  lemma {:induction false} OneByteLE(f: Format, b: bytes, left: nat, n: nat, r: bytes)
    requires 1 <= f.valueBits <= 7 && left > 0 && b != []
    ensures !Continues(f, b[0]) ==> DecodeLE(f, b, left) == Ok((b[0] % Base(f), b[1..]))
    ensures Continues(f, b[0]) ==>
              && (DecodeLE(f, b[1..], left - 1).Err? ==> DecodeLE(f, b, left) == DecodeLE(f, b[1..], left - 1))
              && (DecodeLE(f, b[1..], left - 1) == Ok((n, r)) ==>
                    DecodeLE(f, b, left) == Ok((b[0] % Base(f) + Base(f) * n, r)))
  {
    QuotRemAre(b[0], Base(f));
    JoinIs(n, Base(f), b[0] % Base(f));
  }

  lemma {:induction false} DecodeLEIs(f: Format, b: bytes, left: nat, k: nat)
    requires 1 <= f.valueBits <= 7 && AllContinue(f, b, k) && (k < |b| ==> !AllContinue(f, b, k + 1))
    ensures DecodeLE(f, b, left)
         == if k >= left then Err(Overflow) else if k == |b| then Err(ShortBuffer)
            else Ok((LowFirst(Base(f), b[..k + 1]), b[k + 1..]))
    decreases left
  {
    if left > 0 && b != [] {
      if k == 0 {
        LowFirstStep(Base(f), b, 0);
        OneByteLE(f, b, left, 0, []);
      } else {
        AllContinueTail(f, b, k);
        DecodeLEIs(f, b[1..], left - 1, k - 1);
        if k < |b| {
          LowFirstStep(Base(f), b, k);
          assert b[1..][k..] == b[k + 1..];
          OneByteLE(f, b, left, LowFirst(Base(f), b[1..][..k]), b[k + 1..]);
        } else {
          OneByteLE(f, b, left, 0, []);
        }
      }
    }
  }

  lemma {:induction false} CutProduct(acc: nat, m: nat, p: nat, t: nat)
    requires m > 0
    ensures Rem(Rem(acc, m) * p + t, m) == Rem(acc * p + t, m)
  {
    if acc >= m {
      CutProduct(acc - m, m, p, t);
      assert acc * p + t == (acc - m) * p + t + p * m by {
        assert acc * p == (acc - m) * p + m * p;
      }
      CutMultiple((acc - m) * p + t, p, m);
    }
  }

  lemma {:induction false} CutMultiple(n: nat, p: nat, m: nat)
    requires m > 0
    ensures Rem(n + p * m, m) == Rem(n, m)
  {
    if p > 0 {
      CutMultiple(n, p - 1, m);
      assert p * m == (p - 1) * m + m;
    }
  }

  lemma {:induction false} HighFirstStep(base: nat, b: bytes, k: nat)
    requires base > 0 && k < |b|
    ensures HighFirst(base, b[..k + 1]) == b[0] % base * Power(base, k) + HighFirst(base, b[1..][..k])
  {
    assert b[..k + 1][1..] == b[1..][..k];
  }

  lemma {:induction false} OneByteBE(f: Format, b: bytes, left: nat, acc: nat)
    requires 1 <= f.valueBits <= 7 && left > 0 && b != []
    ensures var next := Rem(acc * Base(f) + b[0] % Base(f), U64);
            DecodeBE(f, b, left, acc) == if Continues(f, b[0]) then DecodeBE(f, b[1..], left - 1, next) else Ok((next, b[1..]))
  {
    QuotRemAre(b[0], Base(f));
    JoinIs(acc, Base(f), b[0] % Base(f));
  }

  lemma {:induction false} DecodeBEIs(f: Format, b: bytes, left: nat, acc: nat, k: nat)
    requires 1 <= f.valueBits <= 7 && AllContinue(f, b, k) && (k < |b| ==> !AllContinue(f, b, k + 1))
    ensures DecodeBE(f, b, left, acc)
         == if k >= left then Err(Overflow) else if k == |b| then Err(ShortBuffer)
            else Ok((Rem(acc * Power(Base(f), k + 1) + HighFirst(Base(f), b[..k + 1]), U64), b[k + 1..]))
    decreases left
  {
    if left > 0 && b != [] {
      var base := Base(f);
      OneByteBE(f, b, left, acc);
      if k == 0 {
        HighFirstStep(base, b, 0);
        LastByteBE(base, acc, b[0] % base);
      } else {
        AllContinueTail(f, b, k);
        DecodeBEIs(f, b[1..], left - 1, Rem(acc * base + b[0] % base, U64), k - 1);
        if k < |b| {
          HighFirstStep(base, b, k);
          OneMoreDigit(acc, base, b[0] % base, Power(base, k), HighFirst(base, b[1..][..k]), U64);
        }
      }
    }
  }

  lemma {:induction false} LastByteBE(base: nat, acc: nat, d: nat)
    requires base > 0
    ensures acc * Power(base, 1) + (d * Power(base, 0) + HighFirst(base, [])) == acc * base + d
  {
    assert Power(base, 0) == 1 && Power(base, 1) == base;
  }

  lemma {:induction false} OneMoreDigit(acc: nat, base: nat, d: nat, p: nat, t: nat, m: nat)
    requires m > 0
    ensures Rem(Rem(acc * base + d, m) * p + t, m) == Rem(acc * (p * base) + (d * p + t), m)
  {
    CutProduct(acc * base + d, m, p, t);
    Distribute(acc, base, d, p);
    assert base * p == p * base;
  }

  /** Up to the first byte that says nothing follows, of which there must be one in time, the bytes are the digits of
      the value, of which 64 bits are kept. */
  lemma {:induction false} ParseIs(f: Format, b: bytes, k: nat)
    requires Valid(f) && AllContinue(f, b, k) && (k < |b| ==> !AllContinue(f, b, k + 1))
    ensures var base := Pow2(f.valueBits);
            Parse(f, b) == (
              if k >= f.maxBytes then Err(Overflow)
              else if k == |b| then Err(ShortBuffer)
              else
                var n := if f.bigEndian then HighFirst(base, b[..k + 1]) else LowFirst(base, b[..k + 1]);
                Ok((n % 0x1_0000_0000_0000_0000, b[k + 1..])))
  {
    if f.bigEndian {
      DecodeBEIs(f, b, f.maxBytes, 0, k);
    } else {
      DecodeLEIs(f, b, f.maxBytes, k);
    }
    if k < |b| {
      QuotRemAre(LowFirst(Base(f), b[..k + 1]), U64);
      QuotRemAre(HighFirst(Base(f), b[..k + 1]), U64);
    }
  }

  /** 128 takes two bytes, as in table 1-1 of MQTT 5.0. */
  lemma {:induction false} MqttByHand()
    ensures Parse(Format(7, 4, false, C), [0x80, 0x01]) == Ok((128, []))
  {
    var f, b := Format(7, 4, false, C), [0x80, 0x01];
    SmallPowers();
    assert AllContinue(f, b, 1) && b[1] < 128;
    ParseIs(f, b, 1);
    assert b[..2] == b && b[1..] == [0x01] && b[2..] == [] && [0x01][1..] == [];
    assert LowFirst(128, [0x01]) == 1;
  }

  /** At seven value bits the C low-group-first loops and the Rust loops are the same functions. */
  lemma {:induction false} SevenBitsAgree(maxBytes: nat, v: nat, b: bytes)
    ensures var c, rust := Format(7, maxBytes, false, C), Format(7, maxBytes, false, Rust);
            && Serialize(c, v) == Serialize(rust, v)
            && Parse(c, b) == Parse(rust, b)
            && WireSize(c, v) == WireSize(rust, v)
  {
    SmallPowers();
    SevenBitsDecode(maxBytes, maxBytes, b);
  }

  lemma {:induction false} SevenBitsDecode(maxBytes: nat, left: nat, b: bytes)
    ensures DecodeLE(Format(7, maxBytes, false, C), b, left) == DecodeLE(Format(7, maxBytes, false, Rust), b, left)
    decreases left
  {
    SmallPowers();
    if left > 0 && b != [] {
      SevenBitsDecode(maxBytes, left - 1, b[1..]);
    }
  }
}

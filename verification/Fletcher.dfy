/** Fletcher-16 (RFC 1146): two running sums modulo 255. */
module Fletcher {
  import opened Bytes
  import opened SkippedField

  datatype Sums = Sums(sum1: nat, sum2: nat)

  function Add(s: Sums, x: byte): Sums {
    var sum1 := (s.sum1 + x) % 255;
    Sums(sum1, (s.sum2 + sum1) % 255)
  }

  function After(s: Sums, data: bytes): Sums
    decreases |data|
  {
    if data == [] then s else After(Add(s, data[0]), data[1..])
  }

  function Fletcher16(data: bytes): nat {
    var s := After(Sums(0, 0), data);
    256 * s.sum2 + s.sum1
  }

  predicate Reduced(s: Sums) { s.sum1 < 255 && s.sum2 < 255 }

  lemma {:induction false} AfterReduced(s: Sums, data: bytes)
    requires Reduced(s)
    ensures Reduced(After(s, data))
    decreases |data|
  {
    if data != [] {
      AfterReduced(Add(s, data[0]), data[1..]);
    }
  }

  lemma {:induction false} AfterAppend(s: Sums, a: bytes, b: bytes)
    ensures After(s, a + b) == After(After(s, a), b)
    decreases |a|
  {
    if a == [] {
      assert a + b == b;
    } else {
      AfterAppend(Add(s, a[0]), a[1..], b);
      assert (a + b)[1..] == a[1..] + b;
    }
  }

  /** A 16-bit addition. */
  function U16(n: nat): nat { if n < 0x1_0000 then n else n % 0x1_0000 }

  /** The sums as emitted: the 16-bit additions never wrap. */
  method Loop(data: bytes) returns (r: nat)
    ensures r == Fletcher16(data) < 0x1_0000
  {
    var sum1: nat, sum2: nat := 0, 0;
    assert data[0..] == data;
    for i := 0 to |data|
      invariant Reduced(Sums(sum1, sum2))
      invariant After(Sums(sum1, sum2), data[i..]) == After(Sums(0, 0), data)
    {
      assert data[i..][0] == data[i] && data[i..][1..] == data[i + 1..];
      ghost var next := Add(Sums(sum1, sum2), data[i]);
      sum1 := U16(sum1 + data[i]) % 255;
      sum2 := U16(sum2 + sum1) % 255;
      assert Sums(sum1, sum2) == next;
    }
    r := 256 * sum2 + sum1;
  }

  // ----- the two sums

  function ByteSum(data: bytes): nat
    decreases |data|
  {
    if data == [] then 0 else data[0] + ByteSum(data[1..])
  }

  /** The last byte once, the one before it twice, and so on. */
  function WeightedSum(data: bytes): nat
    decreases |data|
  {
    if data == [] then 0 else |data| * data[0] + WeightedSum(data[1..])
  }

  lemma {:induction false} CutOff(x: nat) returns (k: nat)
    ensures x == 255 * k + x % 255
  {
    k := x / 255;
  }

  lemma {:induction false} SameCut(x: nat, y: nat, k: int)
    requires x == y + 255 * k
    ensures x % 255 == y % 255
  {
  }

  lemma {:induction false} SecondSum(n: nat, s1: nat, k: nat, c: nat, d: nat)
    requires n >= 1 && d == s1 + 255 * k
    ensures c + n * d == c + s1 + (n - 1) * s1 + 255 * (n * k)
  {
    assert n * d == n * s1 + n * (255 * k);
    assert n * (255 * k) == 255 * (n * k);
    assert n * s1 == s1 + (n - 1) * s1;
  }

  lemma {:induction false} AfterIs(s: Sums, data: bytes)
    requires Reduced(s)
    ensures After(s, data).sum1 == (s.sum1 + ByteSum(data)) % 255
    ensures After(s, data).sum2 == (s.sum2 + |data| * s.sum1 + WeightedSum(data)) % 255
    decreases |data|
  {
    if data != [] {
      var x, t, w := data[0], Add(s, data[0]), WeightedSum(data[1..]);
      AfterIs(t, data[1..]);
      FirstStep(s.sum1, x, t.sum1, ByteSum(data[1..]));
      SecondStep(|data|, s.sum1, s.sum2, x, w, t.sum1, t.sum2);
    }
  }

  lemma {:induction false} FirstStep(s1: nat, x: nat, t1: nat, b: nat)
    requires t1 == (s1 + x) % 255
    ensures (s1 + (x + b)) % 255 == (t1 + b) % 255
  {
    var k := CutOff(s1 + x);
    SameCut(s1 + (x + b), t1 + b, k);
  }

  lemma {:induction false} SecondStep(n: nat, s1: nat, s2: nat, x: nat, w: nat, t1: nat, t2: nat)
    requires n >= 1 && t1 == (s1 + x) % 255 && t2 == (s2 + t1) % 255
    ensures (s2 + n * s1 + (n * x + w)) % 255 == (t2 + (n - 1) * t1 + w) % 255
  {
    var k := CutOff(s1 + x);
    var j := CutOff(s2 + t1);
    SecondSum(n, t1, k, s2 + w, s1 + x);
    Distributed(n, s1, x);
    SameCut(s2 + n * s1 + (n * x + w), t2 + (n - 1) * t1 + w, n * k + j);
  }

  lemma {:induction false} Distributed(n: nat, x: nat, y: nat)
    ensures n * (x + y) == n * x + n * y
  {
  }

  /** The low byte is the sum of the bytes and the high byte their weighted sum, both modulo 255. */
  lemma {:induction false} HalvesAre(data: bytes)
    ensures Fletcher16(data) % 256 == ByteSum(data) % 255
    ensures Fletcher16(data) / 256 == WeightedSum(data) % 255
  {
    AfterIs(Sums(0, 0), data);
  }

  lemma {:induction false} TwoBytes()
    ensures Fletcher16([1, 2]) == 0x0403
  {
    HalvesAre([1, 2]);
    assert [1, 2][1..] == [2] && [2][1..] == [];
    assert ByteSum([2]) == 2 && WeightedSum([2]) == 2;
    assert ByteSum([1, 2]) == 3 && WeightedSum([1, 2]) == 4;
  }

  // ----- the two skip forms

  /** Zero bytes leave the first sum alone and add it to the second. */
  lemma {:induction false} AfterTwoZeros(s: Sums)
    requires Reduced(s)
    ensures After(s, Zeros(2)) == Sums(s.sum1, (s.sum2 + 2 * s.sum1) % 255)
  {
    TwoZeros(s);
    AddTwoZeros(s);
  }

  lemma {:induction false} TwoZeros(s: Sums)
    ensures After(s, Zeros(2)) == Add(Add(s, 0), 0)
  {
    AfterOne(s, 0, Zeros(1));
    AfterOne(Add(s, 0), 0, Zeros(0));
    assert Zeros(2) == [0] + Zeros(1) && Zeros(1) == [0] + Zeros(0);
  }

  lemma {:induction false} AddZero(s: Sums)
    requires Reduced(s)
    ensures Add(s, 0) == Sums(s.sum1, (s.sum2 + s.sum1) % 255)
  {
  }

  lemma {:induction false} AddTwoZeros(s: Sums)
    requires Reduced(s)
    ensures Add(Add(s, 0), 0) == Sums(s.sum1, (s.sum2 + 2 * s.sum1) % 255)
  {
    AddZero(s);
    AddZero(Sums(s.sum1, (s.sum2 + s.sum1) % 255));
    TwiceModulo(s.sum2, s.sum1);
  }

  lemma {:induction false} AfterOne(s: Sums, x: byte, rest: bytes)
    ensures After(s, [x] + rest) == After(Add(s, x), rest)
  {
    assert ([x] + rest)[1..] == rest;
  }

  lemma {:induction false} TwiceModulo(y: nat, x: nat)
    ensures ((y + x) % 255 + x) % 255 == (y + 2 * x) % 255
  {
  }

  /** What follows adds the same to both, so it never hides a difference. */
  lemma {:induction false} TailKeepsDifference(s: Sums, t: Sums, data: bytes)
    requires Reduced(s) && Reduced(t) && s.sum1 == t.sum1
    ensures After(s, data).sum1 == After(t, data).sum1
    ensures After(s, data).sum2 == After(t, data).sum2 <==> s.sum2 == t.sum2
    decreases |data|
  {
    if data != [] {
      SameShift(s.sum2, t.sum2, Add(s, data[0]).sum1);
      TailKeepsDifference(Add(s, data[0]), Add(t, data[0]), data[1..]);
    }
  }

  lemma {:induction false} SameShift(a: nat, b: nat, k: nat)
    requires a < 255 && b < 255
    ensures (a + k) % 255 == (b + k) % 255 <==> a == b
  {
  }

  /** The C form, which passes over the field, and the Rust form, which reads it as zeros, agree exactly
      when the bytes before the field sum to a multiple of 255. */
  lemma {:induction false} SkipFormsAgreeIff(data: bytes, at: nat)
    requires at + 2 <= |data|
    ensures Fletcher16(Zeroed(data, at, 2)) == Fletcher16(Dropped(data, at, 2)) <==>
            After(Sums(0, 0), data[..at]).sum1 == 0
  {
    var zero, head, tail := Sums(0, 0), data[..at], data[at + 2..];
    var s := After(zero, head);
    AfterReduced(zero, head);
    AfterAppend(zero, head, tail);
    AfterAppend(zero, head + Zeros(2), tail);
    AfterAppend(zero, head, Zeros(2));
    AfterTwoZeros(s);
    var t := After(s, Zeros(2));
    AfterReduced(s, Zeros(2));
    TailKeepsDifference(t, s, tail);
    AfterReduced(s, tail);
    AfterReduced(t, tail);
    Doubled(s.sum1, s.sum2);
  }

  lemma {:induction false} Doubled(x: nat, y: nat)
    requires x < 255 && y < 255
    ensures (y + 2 * x) % 255 == y <==> x == 0
  {
  }
}

/** The internet checksum (sections 1 and 2 of RFC 1071) as the runtimes compute it: a 32-bit sum of
    big-endian words, folded to 16 bits and complemented. */
module Internet {
  import opened Bytes

  const U32: nat := 0x1_0000_0000

  /** Buffers up to this length cannot overflow the 32-bit sum. */
  const SAFE_LENGTH: nat := 131074

  /** What one byte position adds to the sum; an odd last byte is padded with zero. */
  function Weight(i: nat): nat { if i % 2 == 0 then 256 else 1 }

  function Word(hi: byte, lo: byte): nat { 256 * hi + lo }

  function SumWords(data: bytes): nat {
    if |data| == 0 then 0
    else if |data| == 1 then 256 * data[0]
    else 256 * data[0] + data[1] + SumWords(data[2..])
  }

  /** One carry added back in. */
  function FoldOnce(sum: nat): (r: nat)
    ensures r % 65535 == sum % 65535
    ensures sum >= 0x1_0000 ==> 0 < r < sum
  {
    FoldStep(sum % 0x1_0000, sum / 0x1_0000);
    sum % 0x1_0000 + sum / 0x1_0000
  }

  lemma {:induction false} FoldStep(low: nat, high: nat)
    ensures (low + high) % 65535 == (low + 0x1_0000 * high) % 65535
  {
    assert low + 0x1_0000 * high == low + high + 65535 * high;
  }

  /** Adding carries back in until none is left. */
  function Fold(sum: nat): (r: nat)
    ensures r < 0x1_0000
    ensures r % 65535 == sum % 65535
    ensures r == 0 <==> sum == 0
  {
    if sum < 0x1_0000 then sum else Fold(FoldOnce(sum))
  }

  function Checksum(data: bytes): (c: nat)
    ensures c <= 65535
  {
    65535 - Fold(SumWords(data) % U32)
  }

  // ----- the sum by positions

  /** Of the first n bytes, those at even positions count 256 times. */
  function PositionSum(data: bytes, n: nat): nat
    requires n <= |data|
  {
    if n == 0 then 0
    else
      var x: nat := data[n - 1];
      PositionSum(data, n - 1) + if n % 2 == 1 then 256 * x else x
  }

  lemma {:induction false} PositionsBehind(data: bytes, n: nat)
    requires |data| >= 2 && n + 2 <= |data|
    ensures PositionSum(data, n + 2) == 256 * data[0] + data[1] + PositionSum(data[2..], n)
  {
    if n == 0 {
      assert PositionSum(data, 1) == Word(data[0], 0);
    } else {
      PositionsBehind(data, n - 1);
    }
  }

  lemma {:induction false} SumIs(data: bytes)
    ensures SumWords(data) == PositionSum(data, |data|)
  {
    if |data| >= 2 {
      SumIs(data[2..]);
      PositionsBehind(data, |data| - 2);
    } else if |data| == 1 {
      assert PositionSum(data, 0) == 0;
    }
  }

  /** The checksum is the one number that completes the 32-bit sum to a multiple of 65535, taken as 65535 instead of
      0 exactly when the sum is 0. */
  lemma {:induction false} ChecksumIs(data: bytes)
    ensures var s := PositionSum(data, |data|) % 0x1_0000_0000;
            && (s + Checksum(data)) % 65535 == 0 && (Checksum(data) == 65535 <==> s == 0)
  {
    SumIs(data);
    var s := SumWords(data) % U32;
    Completes(s, Fold(s));
  }

  lemma {:induction false} Completes(s: nat, f: nat)
    requires f % 65535 == s % 65535 && f <= 65535 && (f == 0 <==> s == 0)
    ensures (s + (65535 - f)) % 65535 == 0
  {
    assert (s - f) % 65535 == 0;
  }

  lemma {:induction false} OnlyChecksum(s: nat, c: nat, d: nat)
    requires c <= 65535 && d <= 65535 && (s + c) % 65535 == 0 && (s + d) % 65535 == 0
    requires (c == 65535 <==> s == 0) && (d == 65535 <==> s == 0)
    ensures c == d
  {
    assert (c - d) % 65535 == 0 by {
      MultipleShift(s + d, c - d);
    }
  }

  /** The eight bytes of section 3 of RFC 1071. */
  lemma {:induction false} ByHand(data: bytes)
    requires data == [0x00, 0x01, 0xf2, 0x03, 0xf4, 0xf5, 0xf6, 0xf7]
    ensures Checksum(data) == 0x220d
  {
    FourWords(data, 0x0001, 0xf203, 0xf4f5, 0xf6f7);
    ChecksumIs(data);
    SumIs(data);
    OnlyChecksum(0x2ddf0, Checksum(data), 0x220d);
  }

  lemma {:induction false} FourWords(data: bytes, a: nat, b: nat, c: nat, d: nat)
    requires |data| == 8 && a == Word(data[0], data[1]) && b == Word(data[2], data[3])
    requires c == Word(data[4], data[5]) && d == Word(data[6], data[7])
    ensures SumWords(data) == a + b + c + d
  {
    TwoWords(data[4..]);
    assert data[2..][2..] == data[4..] && SumWords(data[2..]) == b + SumWords(data[4..]);
  }

  lemma {:induction false} TwoWords(data: bytes)
    requires |data| == 4
    ensures SumWords(data) == Word(data[0], data[1]) + Word(data[2], data[3])
  {
    assert SumWords(data[2..]) == Word(data[2], data[3]) + SumWords(data[2..][2..]);
  }

  // ----- no overflow

  lemma {:induction false} SumBound(data: bytes)
    ensures 2 * SumWords(data) <= 65535 * (|data| + 1)
  {
    if |data| >= 2 {
      SumBound(data[2..]);
    }
  }

  lemma {:induction false} SafeSum(data: bytes)
    requires |data| <= SAFE_LENGTH
    ensures SumWords(data) < U32
  {
    if |data| == SAFE_LENGTH {
      EvenSumBound(data);
    } else {
      SumBound(data);
    }
  }

  lemma {:induction false} EvenSumBound(data: bytes)
    requires |data| % 2 == 0
    ensures 2 * SumWords(data) <= 65535 * |data|
  {
    if data != [] {
      EvenSumBound(data[2..]);
    }
  }

  function Ones(n: nat): (data: bytes)
    ensures |data| == n
  {
    if n == 0 then [] else [255] + Ones(n - 1)
  }

  lemma {:induction false} SumOnes(k: nat)
    ensures SumWords(Ones(2 * k)) == 65535 * k
  {
    if k != 0 {
      SumOnes(k - 1);
      assert Ones(2 * k)[2..] == Ones(2 * (k - 1));
    }
  }

  /** The bound is tight: two bytes more can wrap the sum around. */
  lemma {:induction false} UnsafeLength()
    ensures SumWords(Ones(SAFE_LENGTH + 2)) >= U32
  {
    SumOnes(65538);
  }

  // ----- the check on the receiving side

  predicate Passes(sum: nat) { sum > 0 && sum % 65535 == 0 }

  /** A buffer passes when its sum is a positive multiple of 65535. */
  lemma {:induction false} PassesIff(data: bytes)
    requires |data| <= SAFE_LENGTH
    ensures Checksum(data) == 0 <==> Passes(SumWords(data))
  {
    SafeSum(data);
    FullIff(Fold(SumWords(data)), SumWords(data));
  }

  lemma {:induction false} FullIff(f: nat, sum: nat)
    requires f <= 65535 && f % 65535 == sum % 65535 && (f == 0 <==> sum == 0)
    ensures f == 65535 <==> Passes(sum)
  {
  }

  lemma {:induction false} SetByte(data: bytes, i: nat, x: byte)
    requires i < |data|
    ensures SumWords(data[i := x]) + Weight(i) * data[i] == SumWords(data) + Weight(i) * x
  {
    if i >= 2 {
      SetByte(data[2..], i - 2, x);
      assert data[i := x][2..] == data[2..][i - 2 := x];
    } else if |data| >= 2 {
      assert data[i := x][2..] == data[2..];
    }
  }

  /** Two bytes of the buffer replaced. */
  function Patch(data: bytes, at: nat, hi: byte, lo: byte): (b: bytes)
    requires at + 2 <= |data|
    ensures |b| == |data|
  {
    data[at := hi][at + 1 := lo]
  }

  /** The buffer with its checksum put in place. */
  function Computed(data: bytes, at: nat): (b: bytes)
    requires at + 2 <= |data|
    ensures |b| == |data|
  {
    var c := Checksum(Patch(data, at, 0, 0));
    Patch(data, at, c / 256, c % 256)
  }

  lemma {:induction false} PatchSum(data: bytes, at: nat, hi: byte, lo: byte)
    requires at + 2 <= |data|
    ensures SumWords(Patch(data, at, hi, lo))
         == SumWords(Patch(data, at, 0, 0)) + if at % 2 == 0 then Word(hi, lo) else Word(lo, hi)
  {
    SetByte(data, at, hi);
    SetByte(data, at, 0);
    SetByte(data[at := hi], at + 1, lo);
    SetByte(data[at := 0], at + 1, 0);
  }

  /** The checksum of the buffer with zeros in its place is put there high byte first, and nothing else changes. */
  lemma {:induction false} ComputedIs(data: bytes, at: nat)
    requires at + 2 <= |data|
    ensures var b, zeros := Computed(data, at), data[..at] + [0, 0] + data[at + 2..];
            && b[at] == Checksum(zeros) / 256 && b[at + 1] == Checksum(zeros) % 256
            && forall i :: 0 <= i < |data| && i != at && i != at + 1 ==> b[i] == data[i]
  {
    assert Patch(data, at, 0, 0) == data[..at] + [0, 0] + data[at + 2..];
  }

  /** Whoever computes and then checks gets zero at an even offset, and at an odd offset exactly when the
      two bytes of the checksum are equal. */
  lemma {:induction false} ComputeThenVerify(data: bytes, at: nat)
    requires at + 2 <= |data| <= SAFE_LENGTH
    ensures var c := Checksum(Patch(data, at, 0, 0));
            Checksum(Computed(data, at)) == 0 <==> at % 2 == 0 || c / 256 == c % 256
  {
    var zeroed := Patch(data, at, 0, 0);
    var c := Checksum(zeroed);
    var s := SumWords(zeroed);
    SafeSum(zeroed);
    SmallSum(s);
    PatchSum(data, at, c / 256, c % 256);
    CompletedIff(s, c, at, SumWords(Computed(data, at)));
    PassesIff(Computed(data, at));
  }

  lemma {:induction false} SmallSum(s: nat)
    requires s < U32
    ensures s % U32 == s
  {
  }

  lemma {:induction false} CompletedIff(s: nat, c: nat, at: nat, t: nat)
    requires c == 65535 - Fold(s)
    requires t == s + if at % 2 == 0 then Word(c / 256, c % 256) else Word(c % 256, c / 256)
    ensures Passes(t) <==> at % 2 == 0 || c / 256 == c % 256
  {
    Complement(s, c);
  }

  lemma {:induction false} Complement(s: nat, c: nat)
    requires c == 65535 - Fold(s)
    ensures Passes(s + Word(c / 256, c % 256))
    ensures Passes(s + Word(c % 256, c / 256)) <==> c / 256 == c % 256
  {
    var f := Fold(s);
    assert (s - f) % 65535 == 0;
    SwappedIff(s, c);
  }

  lemma {:induction false} SwappedIff(s: nat, c: nat)
    requires c <= 65535 && (s + c) % 65535 == 0 && (s == 0 ==> c == 65535)
    ensures Passes(s + Word(c % 256, c / 256)) <==> c / 256 == c % 256
  {
    var hi, lo := c / 256, c % 256;
    assert s + Word(lo, hi) == s + c + 255 * (lo - hi);
    MultipleShift(s + c, 255 * (lo - hi));
    SmallDifference(lo - hi);
  }

  lemma {:induction false} MultipleShift(a: int, d: int)
    requires a % 65535 == 0
    ensures (a + d) % 65535 == 0 <==> d % 65535 == 0
  {
  }

  lemma {:induction false} SmallDifference(d: int)
    requires -256 < d < 256
    ensures (255 * d) % 65535 == 0 <==> d == 0
  {
  }

  /** Changing one aligned word of a buffer that passes goes unnoticed exactly when old and new word are
      equal modulo 65535 and the buffer does not become all zero words. */
  lemma {:induction false} WordChange(data: bytes, at: nat, hi: byte, lo: byte)
    requires at + 2 <= |data| <= SAFE_LENGTH && at % 2 == 0 && Checksum(data) == 0
    ensures var was, now := Word(data[at], data[at + 1]), Word(hi, lo);
            Checksum(Patch(data, at, hi, lo)) == 0 <==>
            was % 65535 == now % 65535 && (now > 0 || SumWords(data) > was)
  {
    var rest := WordSums(data, at, hi, lo);
    PassesIff(data);
    PassesIff(Patch(data, at, hi, lo));
    ChangeIff(rest, Word(data[at], data[at + 1]), Word(hi, lo));
  }

  lemma {:induction false} WordSums(data: bytes, at: nat, hi: byte, lo: byte) returns (rest: nat)
    requires at + 2 <= |data| && at % 2 == 0
    ensures SumWords(data) == rest + Word(data[at], data[at + 1])
    ensures SumWords(Patch(data, at, hi, lo)) == rest + Word(hi, lo)
  {
    rest := SumWords(Patch(data, at, 0, 0));
    PatchSum(data, at, hi, lo);
    PatchSum(data, at, data[at], data[at + 1]);
    assert Patch(data, at, data[at], data[at + 1]) == data;
  }

  lemma {:induction false} ChangeIff(rest: nat, was: nat, now: nat)
    requires Passes(rest + was)
    ensures Passes(rest + now) <==> was % 65535 == now % 65535 && (now > 0 || rest > 0)
  {
  }

  // ----- the loops

  method Sum(data: array<byte>) returns (c: nat)
    ensures c == Checksum(data[..])
  {
    var sum: nat, i: nat := 0, 0;
    assert data[..][0..] == data[..];
    while i + 1 < data.Length
      invariant i <= data.Length && sum < U32
      invariant SameSum(sum + SumWords(data[i..]), SumWords(data[..]))
    {
      assert data[i..][2..] == data[i + 2..];
      AddWord(sum, Word(data[i], data[i + 1]), SumWords(data[i + 2..]), SumWords(data[..]));
      sum := (sum + Word(data[i], data[i + 1])) % U32;
      i := i + 2;
    }
    if i < data.Length {
      AddWord(sum, Word(data[i], 0), 0, SumWords(data[..]));
      sum := (sum + Word(data[i], 0)) % U32;
    }
    LastSum(sum, SumWords(data[..]));
    sum := FoldLoop(sum);
    c := 65535 - sum;
  }

  predicate SameSum(a: nat, b: nat) { a % U32 == b % U32 }

  lemma {:induction false} AddWord(sum: nat, word: nat, rest: nat, total: nat)
    requires SameSum(sum + (word + rest), total)
    ensures SameSum((sum + word) % U32 + rest, total)
  {
  }

  lemma {:induction false} LastSum(sum: nat, total: nat)
    requires sum < U32 && SameSum(sum, total)
    ensures sum == total % U32
  {
  }

  method FoldLoop(total: nat) returns (sum: nat)
    ensures sum == Fold(total)
  {
    sum := total;
    while sum / 0x1_0000 != 0
      invariant Fold(sum) == Fold(total)
      decreases sum
    {
      sum := FoldOnce(sum);
    }
  }

  method Compute(data: array<byte>, at: nat)
    requires at + 2 <= data.Length
    modifies data
    ensures data[..] == Computed(old(data[..]), at)
  {
    data[at], data[at + 1] := 0, 0;
    assert data[..] == Patch(old(data[..]), at, 0, 0);
    var c := Sum(data);
    data[at], data[at + 1] := c / 256, c % 256;
    assert data[..] == Patch(old(data[..]), at, c / 256, c % 256);
  }
}

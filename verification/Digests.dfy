/** What a stamped checksum field holds, byte by byte. */
module Digests {
  import opened Bits
  import opened Bytes
  import opened SkippedField
  import opened ChecksumPacket
  import Crc
  import CrcRemainder
  import Fletcher
  import Internet

  /** Two bytes for the 16-bit sums, four for the CRCs. */
  lemma {:induction false} FieldWidthIs(a: Algorithm)
    ensures FieldWidth(a) == if a == Crc32 || a == Crc32c then 4 else 2
  {
  }

  /** The CRCs are those of IEEE 802.3 and of RFC 3720, by their generators' powers. */
  lemma {:induction false} CrcDigests(data: bytes, ieee: nat, castagnoli: nat)
    requires ieee == CrcRemainder.X(32) + CrcRemainder.X(26) + CrcRemainder.X(23) + CrcRemainder.X(22) + CrcRemainder.X(16)
                     + CrcRemainder.X(12) + CrcRemainder.X(11) + CrcRemainder.X(10) + CrcRemainder.X(8) + CrcRemainder.X(7)
                     + CrcRemainder.X(5) + CrcRemainder.X(4) + CrcRemainder.X(2) + CrcRemainder.X(1) + CrcRemainder.X(0)
    requires castagnoli == CrcRemainder.X(32) + CrcRemainder.X(28) + CrcRemainder.X(27) + CrcRemainder.X(26) + CrcRemainder.X(25)
                           + CrcRemainder.X(23) + CrcRemainder.X(22) + CrcRemainder.X(20) + CrcRemainder.X(19) + CrcRemainder.X(18)
                           + CrcRemainder.X(14) + CrcRemainder.X(13) + CrcRemainder.X(11) + CrcRemainder.X(10) + CrcRemainder.X(9)
                           + CrcRemainder.X(8) + CrcRemainder.X(6) + CrcRemainder.X(0)
    ensures CrcRemainder.IsCrc(ieee, data, Digest(Crc32, data))
    ensures CrcRemainder.IsCrc(castagnoli, data, Digest(Crc32c, data))
  {
    CrcRemainder.Generators();
    Crc.BothPolys();
    CrcRemainder.CrcIff(Crc.IEEE, ieee, data, Digest(Crc32, data));
    CrcRemainder.CrcIff(Crc.CASTAGNOLI, castagnoli, data, Digest(Crc32c, data));
  }

  /** The 16-bit sums. */
  lemma {:induction false} SumDigests(data: bytes)
    ensures Digest(Algorithm.Fletcher16, data) % 256 == Fletcher.ByteSum(data) % 255
    ensures Digest(Algorithm.Fletcher16, data) / 256 == Fletcher.WeightedSum(data) % 255
    ensures var s, c := Internet.PositionSum(data, |data|) % 0x1_0000_0000, Digest(InternetSum, data);
            c <= 65535 && (s + c) % 65535 == 0 && (c == 65535 <==> s == 0)
  {
    Fletcher.HalvesAre(data);
    Internet.ChecksumIs(data);
  }

  /** What the digest is taken over: the scope with zeros for the field, or in the C runtime's skip form without it. */
  lemma {:induction false} ExpectedIs(p: Plan, scope: bytes, at: nat, read: bytes)
    requires at + p.Width() <= |scope|
    requires if p.dropsField && p.algorithm != InternetSum then read == scope[..at] + scope[at + p.Width()..]
             else |read| == |scope| && forall i :: 0 <= i < |scope| ==> read[i] == if at <= i < at + p.Width() then 0 else scope[i]
    ensures Expected(p, scope, at) == Digest(p.algorithm, read)
  {
    if !(p.dropsField && p.algorithm != InternetSum) {
      forall i | 0 <= i < |scope| ensures Zeroed(scope, at, p.Width())[i] == read[i] {
        ZeroedAt(scope, at, p.Width(), i);
      }
      assert Zeroed(scope, at, p.Width()) == read;
    }
  }

  /** The stamp is the digest high byte first, whatever the byte order of the field; nothing else changes. */
  lemma {:induction false} StampIs(p: Plan, scope: bytes, at: nat, i: nat)
    requires at + p.Width() <= |scope| && i < |scope|
    ensures Stamp(p, scope, at)[i]
         == if at <= i < at + p.Width() then Expected(p, scope, at) / Pow256(at + p.Width() - 1 - i) % 256 else scope[i]
  {
    if at <= i < at + p.Width() {
      BigEndianAt(p.Width(), Expected(p, scope, at), i - at);
    }
  }

  /** A field that is compared is right if it is the digest. A scope that is summed is right if its sum is a multiple
      of 65535 and not zero. */
  lemma {:induction false} AcceptsIs(p: Plan, scope: bytes, at: nat, field: int)
    ensures p.algorithm != InternetSum ==>
              (Accepts(p, scope, at, field) <==> at + p.Width() <= |scope| && field == Expected(p, scope, at))
    ensures p.algorithm == InternetSum ==>
              var s := Internet.PositionSum(scope, |scope|) % 0x1_0000_0000;
              (Accepts(p, scope, at, field) <==> s > 0 && s % 65535 == 0)
  {
    if p.algorithm == InternetSum {
      Internet.ChecksumIs(scope);
      ZeroIff(Internet.PositionSum(scope, |scope|) % 0x1_0000_0000, Internet.Checksum(scope));
    }
  }

  lemma {:induction false} ZeroIff(s: int, c: int)
    requires s >= 0 && 0 <= c <= 65535 && (s + c) % 65535 == 0 && (c == 65535 <==> s == 0)
    ensures c == 0 <==> s > 0 && s % 65535 == 0
  {
    Internet.MultipleShift(s + c, -c);
  }
}

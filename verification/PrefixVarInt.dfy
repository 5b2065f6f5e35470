/** Varints whose first bits select the length (section 16 of RFC 9000 is the two-bit instance).
    The functions give the value read or the bytes written by the emitted code, which VarIntCode models
    byte by byte. */
module PrefixVarInt {
  import opened Bits
  import opened Bytes
  import opened Outcome

  datatype Branch = Branch(prefix: nat, valueBits: nat, totalBytes: nat) {
    function Max(): nat { Pow2(valueBits) - 1 }
  }

  datatype Table = Table(prefixBits: nat, branches: seq<Branch>, maxBytes: nat, strict: bool)

  /** Branch tables as the analyzer lowers them: distinct prefixes, increasing widths, whole bytes. */
  ghost predicate Valid(s: Table) {
    && 1 <= s.prefixBits <= 8
    && (forall i :: 0 <= i < |s.branches| ==> ValidBranch(s.prefixBits, s.branches[i]))
    && (forall i, j :: 0 <= i < j < |s.branches| ==>
          s.branches[i].prefix != s.branches[j].prefix && s.branches[i].valueBits < s.branches[j].valueBits)
  }

  predicate ValidBranch(prefixBits: nat, b: Branch) {
    && b.prefix < Pow2(prefixBits)
    && 1 <= b.totalBytes <= 8
    && 8 * b.totalBytes == prefixBits + b.valueBits
  }

  /** The QUIC table: two prefix bits, 6/14/30/62 value bits. */
  const QUIC: Table :=
    Table(2, [Branch(0, 6, 1), Branch(1, 14, 2), Branch(2, 30, 4), Branch(3, 62, 8)], 8, true)

  /** Index of the branch carrying a prefix, or the number of branches. */
  function Find(bs: seq<Branch>, prefix: nat): (i: nat)
    ensures i <= |bs|
    ensures i < |bs| ==> bs[i].prefix == prefix
    ensures forall j :: 0 <= j < i ==> bs[j].prefix != prefix
  {
    if bs == [] then 0 else if bs[0].prefix == prefix then 0 else 1 + Find(bs[1..], prefix)
  }

  /** Index of the first branch wide enough for a value, or the number of branches. */
  function Fit(bs: seq<Branch>, v: nat): (i: nat)
    ensures i <= |bs|
    ensures i < |bs| ==> v <= bs[i].Max()
    ensures forall j :: 0 <= j < i ==> v > bs[j].Max()
  {
    if bs == [] then 0 else if v <= bs[0].Max() then 0 else 1 + Fit(bs[1..], v)
  }

  function FirstBits(s: Table): nat
    requires 1 <= s.prefixBits <= 8
  {
    Pow2(8 - s.prefixBits)
  }

  function Parse(s: Table, b: bytes): Result<(nat, bytes)>
    requires Valid(s)
  {
    if b == [] then Err(ShortBuffer)
    else
      var i := Find(s.branches, Quot(b[0], FirstBits(s)));
      if i == |s.branches| then Err(InvalidTag)
      else
        var n := s.branches[i].totalBytes;
        if |b| < n then Err(ShortBuffer)
        else
          var v := Join(Rem(b[0], FirstBits(s)), Pow256(n - 1), FromBE(b[1..n]));
          if s.strict && i > 0 && v <= s.branches[i - 1].Max() then Err(Noncanonical)
          else Ok((v, b[n..]))
  }

  function Encode(s: Table, br: Branch, v: nat): (b: bytes)
    requires 1 <= s.prefixBits <= 8 && ValidBranch(s.prefixBits, br) && v <= br.Max()
    ensures |b| == br.totalBytes
  {
    var p := Pow256(br.totalBytes - 1);
    FirstByteFits(s, br, v);
    [Join(br.prefix, FirstBits(s), Quot(v, p))] + ToBE(br.totalBytes - 1, Rem(v, p))
  }

  function Serialize(s: Table, v: nat): Result<bytes>
    requires Valid(s)
  {
    var i := Fit(s.branches, v);
    if i == |s.branches| then Err(Overflow) else Ok(Encode(s, s.branches[i], v))
  }

  function WireSize(s: Table, v: nat): nat {
    var i := Fit(s.branches, v);
    if i == |s.branches| then s.maxBytes else s.branches[i].totalBytes
  }

  lemma {:induction false} WidthSplit(s: Table, br: Branch)
    requires 1 <= s.prefixBits <= 8 && ValidBranch(s.prefixBits, br)
    ensures Pow2(br.valueBits) == FirstBits(s) * Pow256(br.totalBytes - 1)
    ensures Pow2(s.prefixBits) * FirstBits(s) == 256
  {
    Pow256IsPow2(br.totalBytes - 1);
    Pow2Add(8 - s.prefixBits, 8 * (br.totalBytes - 1));
    Pow2Add(s.prefixBits, 8 - s.prefixBits);
    Pow256IsPow2(1);
  }

  lemma {:induction false} FirstByteFits(s: Table, br: Branch, v: nat)
    requires 1 <= s.prefixBits <= 8 && ValidBranch(s.prefixBits, br) && v <= br.Max()
    ensures Quot(v, Pow256(br.totalBytes - 1)) < FirstBits(s)
    ensures Join(br.prefix, FirstBits(s), Quot(v, Pow256(br.totalBytes - 1))) < 256
  {
    WidthSplit(s, br);
    QuotLt(v, FirstBits(s), Pow256(br.totalBytes - 1));
    JoinLt(br.prefix, Pow2(s.prefixBits), FirstBits(s), Quot(v, Pow256(br.totalBytes - 1)));
  }

  /** A branch's encoding is read through that branch, whatever follows. */
  lemma {:induction false} ParseWide(s: Table, i: nat, v: nat, tail: bytes)
    requires Valid(s) && i < |s.branches| && v <= s.branches[i].Max()
    ensures Parse(s, Encode(s, s.branches[i], v) + tail) ==
            if s.strict && i > 0 && v <= s.branches[i - 1].Max() then Err(Noncanonical) else Ok((v, tail))
  {
    var br := s.branches[i];
    var n := br.totalBytes;
    var p := Pow256(n - 1);
    var e := Encode(s, br, v);
    var b := e + tail;
    FirstByteFits(s, br, v);
    JoinSplit(br.prefix, FirstBits(s), Quot(v, p));
    assert Find(s.branches, br.prefix) == i;
    assert b[1..n] == ToBE(n - 1, Rem(v, p)) && b[n..] == tail;
    SplitJoin(v, p);
    FromToBE(n - 1, Rem(v, p));
  }

  /** parse(serialize(v) ++ t) is v and leaves t, after exactly wire_size(v) bytes; serialize refuses
      exactly the values above the widest branch. */
  lemma {:induction false} RoundTrip(s: Table, v: nat, tail: bytes)
    requires Valid(s)
    ensures Serialize(s, v).Ok? <==> exists i :: 0 <= i < |s.branches| && v <= s.branches[i].Max()
    ensures Serialize(s, v).Ok? ==>
              && |Serialize(s, v).value| == WireSize(s, v) > 0
              && Parse(s, Serialize(s, v).value + tail) == Ok((v, tail))
    ensures Serialize(s, v).Err? ==> Serialize(s, v) == Err(Overflow)
  {
    var i := Fit(s.branches, v);
    if i < |s.branches| {
      ParseWide(s, i, v, tail);
    }
  }

  lemma {:induction false} WidthMono(s: Table, i: nat, j: nat)
    requires Valid(s) && i <= j < |s.branches|
    ensures s.branches[i].totalBytes <= s.branches[j].totalBytes
    ensures s.branches[i].Max() <= s.branches[j].Max()
  {
    Pow2Mono(s.branches[i].valueBits, s.branches[j].valueBits);
  }

  /** The branch a successful parse took, and what it read. */
  lemma {:induction false} ParsedBranch(s: Table, b: bytes) returns (i: nat)
    requires Valid(s) && Parse(s, b).Ok?
    ensures i < |s.branches| && b != [] && |b| >= s.branches[i].totalBytes && Quot(b[0], FirstBits(s)) == s.branches[i].prefix
    ensures var n := s.branches[i].totalBytes;
            var (v, r) := Parse(s, b).value;
            && v == Join(Rem(b[0], FirstBits(s)), Pow256(n - 1), FromBE(b[1..n]))
            && r == b[n..] && |b| - |r| == n
            && (s.strict && i > 0 ==> v > s.branches[i - 1].Max())
  {
    i := Find(s.branches, Quot(b[0], FirstBits(s)));
  }

  /** What a successful parse says about its input. A branch's bytes are the encoding of the value in
      that branch; the canonical encoding is never longer, and in a strict table it is those bytes. */
  lemma {:induction false} ParseSound(s: Table, b: bytes)
    requires Valid(s) && Parse(s, b).Ok?
    ensures var (v, r) := Parse(s, b).value;
            && |r| < |b| && r == b[|b| - |r|..]
            && Serialize(s, v).Ok?
            && |Serialize(s, v).value| <= |b| - |r|
            && (s.strict ==> Serialize(s, v).value == b[..|b| - |r|])
  {
    var i := ParsedBranch(s, b);
    var v := Parse(s, b).value.0;
    ReEncode(s, s.branches[i], b);
    ShortestBranch(s, i, v);
  }

  /** The branch serialize picks is at most any branch that holds the value, and is that branch when
      the one before does not. */
  lemma {:induction false} ShortestBranch(s: Table, i: nat, v: nat)
    requires Valid(s) && i < |s.branches| && v <= s.branches[i].Max()
    ensures Fit(s.branches, v) <= i
    ensures s.branches[Fit(s.branches, v)].totalBytes <= s.branches[i].totalBytes
    ensures i > 0 && v > s.branches[i - 1].Max() ==> Fit(s.branches, v) == i
  {
    var j := Fit(s.branches, v);
    WidthMono(s, j, i);
    if j < i {
      WidthMono(s, j, i - 1);
    }
  }

  /** The bytes of one branch are that branch's encoding of the value read from them. */
  lemma {:induction false} ReEncode(s: Table, br: Branch, b: bytes)
    requires 1 <= s.prefixBits <= 8 && ValidBranch(s.prefixBits, br)
    requires |b| >= br.totalBytes && Quot(b[0], FirstBits(s)) == br.prefix
    ensures var v := Join(Rem(b[0], FirstBits(s)), Pow256(br.totalBytes - 1), FromBE(b[1..br.totalBytes]));
            v <= br.Max() && Encode(s, br, v) == b[..br.totalBytes]
  {
    var n := br.totalBytes;
    var p := Pow256(n - 1);
    var top, low := Rem(b[0], FirstBits(s)), FromBE(b[1..n]);
    WidthSplit(s, br);
    JoinLt(top, FirstBits(s), p, low);
    JoinSplit(top, p, low);
    SplitJoin(b[0], FirstBits(s));
    ToFromBE(b[1..n]);
  }

  /** In a strict table parse accepts exactly the image of serialize, byte for byte. */
  lemma {:induction false} StrictAccepts(s: Table, b: bytes, v: nat, r: bytes)
    requires Valid(s) && s.strict
    ensures Parse(s, b) == Ok((v, r)) <==> Serialize(s, v).Ok? && b == Serialize(s, v).value + r
  {
    if Parse(s, b) == Ok((v, r)) {
      ParseSound(s, b);
    }
    if Serialize(s, v).Ok? {
      RoundTrip(s, v, r);
    }
  }

  // ----- what the bytes stand for

  lemma {:induction false} Weights(prefix: nat, f: nat, p: nat, q: nat, r: nat)
    ensures Join(Join(prefix, f, q), p, r) == prefix * (f * p) + (q * p + r)
  {
    JoinIs(prefix, f, q);
    JoinIs(Join(prefix, f, q), p, r);
    Distribute(prefix, f, q, p);
  }

  /** The bytes of a branch, read as one big-endian number, are its prefix on top of the value. */
  lemma {:induction false} EncodeIs(s: Table, br: Branch, v: nat)
    requires 1 <= s.prefixBits <= 8 && ValidBranch(s.prefixBits, br) && v <= br.Max()
    ensures FromBE(Encode(s, br, v)) == br.prefix * Pow2(br.valueBits) + v
  {
    var p := Pow256(br.totalBytes - 1);
    WidthSplit(s, br);
    FromToBE(br.totalBytes - 1, Rem(v, p));
    assert Encode(s, br, v)[1..] == ToBE(br.totalBytes - 1, Rem(v, p));
    SplitJoin(v, p);
    JoinIs(Quot(v, p), p, Rem(v, p));
    Weights(br.prefix, FirstBits(s), p, Quot(v, p), Rem(v, p));
  }

  lemma {:induction false} BranchValue(s: Table, br: Branch, b: bytes)
    requires 1 <= s.prefixBits <= 8 && ValidBranch(s.prefixBits, br)
    requires |b| >= br.totalBytes && Quot(b[0], FirstBits(s)) == br.prefix
    ensures var v := Join(Rem(b[0], FirstBits(s)), Pow256(br.totalBytes - 1), FromBE(b[1..br.totalBytes]));
            v < Pow2(br.valueBits) && FromBE(b[..br.totalBytes]) == br.prefix * Pow2(br.valueBits) + v
  {
    ReEncode(s, br, b);
    EncodeIs(s, br, Join(Rem(b[0], FirstBits(s)), Pow256(br.totalBytes - 1), FromBE(b[1..br.totalBytes])));
  }

  lemma {:induction false} ParseBranch(s: Table, b: bytes, i: nat) returns (v: nat)
    requires Valid(s) && b != [] && i < |s.branches| && s.branches[i].prefix == Quot(b[0], FirstBits(s))
    ensures |b| < s.branches[i].totalBytes ==> Parse(s, b) == Err(ShortBuffer)
    ensures |b| >= s.branches[i].totalBytes ==>
              && v == Join(Rem(b[0], FirstBits(s)), Pow256(s.branches[i].totalBytes - 1), FromBE(b[1..s.branches[i].totalBytes]))
              && Parse(s, b) == if s.strict && i > 0 && v <= s.branches[i - 1].Max() then Err(Noncanonical)
                                else Ok((v, b[s.branches[i].totalBytes..]))
  {
    var br := s.branches[i];
    assert Find(s.branches, br.prefix) == i;
    v := if |b| >= br.totalBytes then Join(Rem(b[0], FirstBits(s)), Pow256(br.totalBytes - 1), FromBE(b[1..br.totalBytes])) else 0;
  }

  /** The prefix is in the top bits of the first byte. Its branch takes its number of bytes, which stand for the
      prefix on top of the value, and a strict table refuses what the branch before could hold. */
  lemma {:induction false} ParseIs(s: Table, b: bytes, i: nat) returns (v: nat)
    requires Valid(s) && b != [] && i < |s.branches| && s.branches[i].prefix == b[0] / Pow2(8 - s.prefixBits)
    ensures |b| < s.branches[i].totalBytes ==> Parse(s, b) == Err(ShortBuffer)
    ensures |b| >= s.branches[i].totalBytes ==>
              && FromBE(b[..s.branches[i].totalBytes]) == s.branches[i].prefix * Pow2(s.branches[i].valueBits) + v
              && v < Pow2(s.branches[i].valueBits)
              && Parse(s, b) == if s.strict && i > 0 && v < Pow2(s.branches[i - 1].valueBits) then Err(Noncanonical)
                                else Ok((v, b[s.branches[i].totalBytes..]))
  {
    QuotRemAre(b[0], FirstBits(s));
    v := ParseBranch(s, b, i);
    if |b| >= s.branches[i].totalBytes {
      BranchValue(s, s.branches[i], b);
    }
  }

  /** Nothing to read, or bits that no branch has for its prefix. */
  lemma {:induction false} NoBranch(s: Table, b: bytes)
    requires Valid(s)
    requires b != [] ==> forall i :: 0 <= i < |s.branches| ==> s.branches[i].prefix != b[0] / Pow2(8 - s.prefixBits)
    ensures Parse(s, b) == Err(if b == [] then ShortBuffer else InvalidTag)
  {
    if b != [] {
      QuotRemAre(b[0], FirstBits(s));
    }
  }

  /** A value is written in the first branch with enough bits for it. */
  lemma {:induction false} SerializeIs(s: Table, v: nat, i: nat)
    requires Valid(s) && i < |s.branches| && v < Pow2(s.branches[i].valueBits)
    requires forall j :: 0 <= j < i ==> v >= Pow2(s.branches[j].valueBits)
    ensures Serialize(s, v).Ok? && |Serialize(s, v).value| == s.branches[i].totalBytes == WireSize(s, v)
    ensures FromBE(Serialize(s, v).value) == s.branches[i].prefix * Pow2(s.branches[i].valueBits) + v
  {
    var k := Fit(s.branches, v);
    assert k == i;
    EncodeIs(s, s.branches[i], v);
  }

  /** Two bytes of the examples in section A.1 of RFC 9000. */
  lemma {:induction false} QuicByHand(b: bytes)
    requires b == [0x7b, 0xbd]
    ensures Parse(QUIC, b) == Ok((15293, []))
  {
    QuicValid();
    assert Pow2(6) == 64;
    Pow2Add(6, 8);
    Pow256IsPow2(1);
    var v := ParseIs(QUIC, b, 1);
    assert b[..2] == b && b[2..] == [];
    TwoBytes(b);
    JoinIs(0x7b, 256, 0xbd);
  }

  lemma {:induction false} QuicValid()
    ensures Valid(QUIC)
  {
    assert Pow2(2) == 4;
  }

  /** A value written in a wider branch than it needs: @strict rejects it, otherwise it is read as the
      same value, which serialize then writes shorter. */
  lemma {:induction false} LongForm(s: Table, i: nat, j: nat, v: nat, tail: bytes)
    requires Valid(s) && i < j < |s.branches| && v <= s.branches[i].Max()
    ensures v <= s.branches[j].Max()
    ensures Parse(s, Encode(s, s.branches[j], v) + tail) == if s.strict then Err(Noncanonical) else Ok((v, tail))
    ensures Serialize(s, v).Ok? && |Serialize(s, v).value| < |Encode(s, s.branches[j], v)|
  {
    WidthMono(s, i, j - 1);
    WidthMono(s, j - 1, j);
    WidthMono(s, Fit(s.branches, v), i);
    ParseWide(s, j, v, tail);
    RoundTrip(s, v, []);
  }
}

/** Scalar wire types: fixed-width integers, booleans and the two kinds of varint, behind one interface
    for the codec: a read, a write, a length, and the laws relating them. */
module Scalars {
  import opened Bits
  import opened Bytes
  import opened Outcome
  import opened Expr
  import PV = PrefixVarInt
  import CV = ContVarInt

  datatype Kind = Unsigned | Signed | Flag

  datatype Scalar_ =
    | Prim(width: nat, bigEndian: bool, kind: Kind)
    | Prefix(table: PV.Table)
    | Cont(format: CV.Format)

  ghost predicate ValidScalar(s: Scalar_) {
    match s
    case Prim(w, _, k) => w in {1, 2, 3, 4, 8} && (k.Flag? ==> w == 1)
    case Prefix(t) => PV.Valid(t)
    case Cont(f) => CV.Valid(f)
  }

  type Scalar = s: Scalar_ | ValidScalar(s) witness Prim(1, true, Unsigned)

  /** The type of the struct member that holds it. */
  function TypeOf(s: Scalar): CType {
    match s
    case Prim(w, _, k) =>
      if k.Flag? then BOOL else CType(if w == 3 then 32 else 8 * w, k.Signed?)
    case _ => ULONG
  }

  /** A raw unsigned reading as the member's value: two's complement, or zero/nonzero. */
  function FromRaw(w: nat, k: Kind, u: nat): int {
    match k
    case Unsigned => u
    case Signed => if 2 * u >= Pow256(w) then u - Pow256(w) else u
    case Flag => if u != 0 then 1 else 0
  }

  function ToRaw(w: nat, n: int): nat {
    if n >= 0 then n else if n + Pow256(w) >= 0 then n + Pow256(w) else 0
  }

  /** The values the member can hold and the writer accepts. */
  predicate InRange(s: Scalar, n: int) {
    match s
    case Prim(w, _, k) =>
      (match k
       case Unsigned => 0 <= n < Pow256(w)
       case Signed => 0 <= 2 * n + Pow256(w) < 2 * Pow256(w)
       case Flag => n == 0 || n == 1)
    case Prefix(t) => n >= 0 && PV.Serialize(t, n).Ok?
    case Cont(f) => 0 <= n < CV.U64 && CV.Serialize(f, n).Ok?
  }

  function Parse(s: Scalar, b: bytes): Result<(int, bytes)> {
    match s
    case Prim(w, big, k) =>
      if |b| < w then Err(ShortBuffer)
      else Ok((FromRaw(w, k, if big then FromBE(b[..w]) else FromLE(b[..w])), b[w..]))
    case Prefix(t) =>
      var (n, r) :- PV.Parse(t, b); Ok((n, r))
    case Cont(f) =>
      var (n, r) :- CV.Parse(f, b); Ok((n, r))
  }

  function Serialize(s: Scalar, n: int): Result<bytes> {
    match s
    case Prim(w, big, k) => Ok(if big then ToBE(w, ToRaw(w, n)) else ToLE(w, ToRaw(w, n)))
    case Prefix(t) => if n < 0 then Err(Overflow) else PV.Serialize(t, n)
    case Cont(f) => if n < 0 then Err(Overflow) else CV.Serialize(f, n)
  }

  /** The emitted length computation: a constant, or `wire_size`. */
  function WireSize(s: Scalar, n: int): nat {
    match s
    case Prim(w, _, _) => w
    case Prefix(t) => if n < 0 then 0 else PV.WireSize(t, n)
    case Cont(f) => if n < 0 then 0 else CV.WireSize(f, n)
  }

  /** Encodings of one length for each value. */
  predicate KeepsLength(s: Scalar) {
    match s
    case Prim(_, _, _) => true
    case Prefix(t) => t.strict
    case Cont(_) => false
  }

  /** Encodings with one byte string for each value. */
  predicate Canonical(s: Scalar) {
    KeepsLength(s) && (s.Prim? ==> !s.kind.Flag?)
  }

  /** The value of a reading differs from it by a multiple of the word's span, and lies in the signed or the
      unsigned range; a flag only says whether the reading is zero. */
  lemma {:induction false} ReadingIs(w: nat, k: Kind, u: nat)
    requires u < Pow256(w)
    ensures k.Unsigned? ==> FromRaw(w, k, u) == u
    ensures k.Signed? ==> (FromRaw(w, k, u) - u) % Pow256(w) == 0 && 0 <= 2 * FromRaw(w, k, u) + Pow256(w) < 2 * Pow256(w)
    ensures k.Flag? ==> FromRaw(w, k, u) == if u == 0 then 0 else 1
  {
    NegativeMultiple(Pow256(w));
  }

  lemma {:induction false} NegativeMultiple(m: int)
    requires m > 0
    ensures (-m) % m == 0 && 0 % m == 0
  {
    var q := (-m) / m;
    SmallMultiple(q + 1, m);
  }

  /** What is written for a number of the type differs from it by a multiple of the word's span. */
  lemma {:induction false} WritingIs(s: Scalar, n: int)
    requires s.Prim? && InRange(s, n)
    ensures ToRaw(s.width, n) < Pow256(s.width) && (ToRaw(s.width, n) - n) % Pow256(s.width) == 0
    ensures n >= 0 ==> ToRaw(s.width, n) == n
  {
    RawRoundTrip(s, n);
    var m := Pow256(s.width);
    DivModOf(1, m, 0);
    DivModOf(0, m, 0);
  }

  /** A fixed-width scalar takes its bytes off the front; there must be that many. */
  lemma {:induction false} FixedIs(s: Scalar, b: bytes)
    requires s.Prim?
    ensures |b| < s.width ==> Parse(s, b) == Err(ShortBuffer)
    ensures |b| >= s.width ==>
              var u := if s.bigEndian then FromBE(b[..s.width]) else FromLE(b[..s.width]);
              Parse(s, b) == Ok((FromRaw(s.width, s.kind, u), b[s.width..]))
  {
  }

  lemma {:induction false} RawRoundTrip(s: Scalar, n: int)
    requires s.Prim? && InRange(s, n)
    ensures ToRaw(s.width, n) < Pow256(s.width)
    ensures FromRaw(s.width, s.kind, ToRaw(s.width, n)) == n
  {
    if s.kind.Flag? {
      assert Pow256(1) == 256;
    }
  }

  /** What is written is read back, whatever follows. */
  lemma {:induction false} RoundTrip(s: Scalar, n: int, tail: bytes)
    requires InRange(s, n)
    ensures Serialize(s, n).Ok?
    ensures |Serialize(s, n).value| == WireSize(s, n) > 0
    ensures Parse(s, Serialize(s, n).value + tail) == Ok((n, tail))
  {
    match s
    case Prim(w, big, k) =>
      RawRoundTrip(s, n);
      var e := Serialize(s, n).value;
      assert (e + tail)[..w] == e && (e + tail)[w..] == tail;
      FromToBE(w, ToRaw(w, n));
      FromToLE(w, ToRaw(w, n));
    case Prefix(t) => PV.RoundTrip(t, n, tail);
    case Cont(f) => CV.RoundTrip(f, n, tail);
  }

  /** What is read can be written, in no more bytes; in exactly as many, or exactly the same, for the
      stricter encodings. */
  lemma {:induction false} ParseSound(s: Scalar, b: bytes)
    requires Parse(s, b).Ok?
    ensures var (n, r) := Parse(s, b).value;
            && InRange(s, n)
            && |r| < |b| && r == b[|b| - |r|..]
            && Serialize(s, n).Ok?
            && |Serialize(s, n).value| <= |b| - |r|
            && (KeepsLength(s) ==> |Serialize(s, n).value| == |b| - |r|)
            && (Canonical(s) ==> Serialize(s, n).value == b[..|b| - |r|])
  {
    match s
    case Prim(w, big, k) =>
      PrimSound(s, b);
    case Prefix(t) =>
      PV.ParseSound(t, b);
    case Cont(f) =>
      CV.ParseSound(f, b);
  }

  lemma {:induction false} PrimSound(s: Scalar, b: bytes)
    requires s.Prim? && |b| >= s.width
    ensures var n := Parse(s, b).value.0;
            InRange(s, n) && (Canonical(s) ==> Serialize(s, n).value == b[..s.width])
  {
    var w := s.width;
    ToFromBE(b[..w]);
    ToFromLE(b[..w]);
    var u := if s.bigEndian then FromBE(b[..w]) else FromLE(b[..w]);
    assert u < Pow256(w);
    if !s.kind.Flag? {
      assert ToRaw(w, FromRaw(w, s.kind, u)) == u;
    }
  }
}

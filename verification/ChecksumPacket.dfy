/** The checksum field of a list of ops: computed after everything is written, patched in place high byte
    first, and checked after everything is read. Which lists a packet's serializer and parser run is the
    matter of ChecksumCode. */
module ChecksumPacket {
  import opened Bits
  import opened Bytes
  import opened Outcome
  import opened Expr
  import opened Codec
  import opened RoundTrip
  import opened SkippedField
  import opened OneField
  import opened Runtime
  import Internet
  import Crc
  import Xors
  import Fletcher
  import S = Scalars
  import SC = SerializeCode

  datatype Algorithm = InternetSum | Crc32 | Crc32c | Fletcher16

  function FieldWidth(a: Algorithm): nat {
    if a.InternetSum? || a.Fletcher16? then 2 else 4
  }

  /** `dropsField` is the C runtime's skip form; the Rust runtime reads the field as zeros. */
  datatype Plan = Plan(algorithm: Algorithm, dropsField: bool, ops: seq<Op>, field: nat, name: string, bigEndian: bool) {
    predicate Valid() {
      && IsField(ops, field, name, FieldWidth(algorithm), bigEndian)
      && NoneMentions(ops, name)
    }
    function Width(): nat { FieldWidth(algorithm) }
  }

  function Digest(a: Algorithm, data: bytes): nat {
    match a
    case InternetSum => Internet.Checksum(data)
    case Crc32 => Crc.Crc(Crc.IEEE, data)
    case Crc32c => Crc.Crc(Crc.CASTAGNOLI, data)
    case Fletcher16 => Fletcher.Fletcher16(data)
  }

  /** The digest of the scope without its checksum field. */
  function Expected(p: Plan, scope: bytes, at: nat): nat
    requires at + p.Width() <= |scope|
  {
    if p.dropsField && !p.algorithm.InternetSum? then Digest(p.algorithm, Dropped(scope, at, p.Width()))
    else Digest(p.algorithm, Zeroed(scope, at, p.Width()))
  }

  function Stamp(p: Plan, scope: bytes, at: nat): (b: bytes)
    requires at + p.Width() <= |scope|
    ensures |b| == |scope|
  {
    scope[..at] + ToBE(p.Width(), Expected(p, scope, at)) + scope[at + p.Width()..]
  }

  predicate Accepts(p: Plan, scope: bytes, at: nat, field: int) {
    if p.algorithm.InternetSum? then Internet.Checksum(scope) == 0
    else at + p.Width() <= |scope| && field == Expected(p, scope, at)
  }

  function Stamped(p: Plan, vs: seq<Val>): Option<bytes>
    requires p.Valid()
  {
    var e := SerOps(p.ops, vs);
    if e == None || |vs| != |p.ops| then None
    else
      var at := Codec.Width(SerOps(p.ops[..p.field], vs[..p.field]));
      if at + p.Width() > |e.value| then None else Some(Stamp(p, e.value, at))
  }

  /** All items in order, with the offset of the checksum field noted on the way. */
  function ParseTracked(ops: seq<Op>, k: nat, b: bytes): Result<(seq<Val>, nat, bytes)>
    requires k <= |ops|
  {
    var (vs, m) :- ParseOps(ops[..k], NO_NAMES, b);
    var (ws, r) :- ParseOps(ops[k..], ExtendAll(NO_NAMES, ops[..k], vs), m);
    Ok((vs + ws, if |m| <= |b| then |b| - |m| else 0, r))
  }

  function ParseStamped(p: Plan, b: bytes): Result<(seq<Val>, bytes)>
    requires p.Valid()
  {
    var (vs, at, r) :- ParseTracked(p.ops, p.field, b);
    var scope := if |r| <= |b| then b[..|b| - |r|] else [];
    if p.field < |vs| && vs[p.field].Num? && Accepts(p, scope, at, vs[p.field].n) then Ok((vs, r)) else Err(Error.Checksum)
  }

  // ----- the digest and the bytes it is stored in

  lemma {:induction false} DigestFits(a: Algorithm, data: bytes)
    ensures Digest(a, data) < Pow256(FieldWidth(a))
  {
    assert Pow256(2) == 0x1_0000;
    assert Pow256(4) == 0x1_0000_0000 by {
      assert Pow256(3) == 256 * Pow256(2);
    }
    Crc.BothPolys();
    match a
    case InternetSum =>
    case Crc32 => CrcFits(Crc.IEEE, data);
    case Crc32c => CrcFits(Crc.CASTAGNOLI, data);
    case Fletcher16 => Fletcher.AfterReduced(Fletcher.Sums(0, 0), data);
  }

  lemma {:induction false} CrcFits(poly: nat, data: bytes)
    requires Crc.Poly(poly)
    ensures Crc.Crc(poly, data) < 0x1_0000_0000
  {
    Crc.BothPolys();
    Crc.Powers();
    Crc.RegisterInjective(poly, Crc.ALL, Crc.ALL, data);
    Xors.XorBound(Crc.Register(poly, Crc.ALL, data), Crc.ALL, 32);
  }

  /** The number read back from the stored bytes. */
  function Stored(p: Plan, c: nat): nat {
    if p.bigEndian then FromBE(ToBE(p.Width(), c)) else FromLE(ToBE(p.Width(), c))
  }

  lemma {:induction false} StoredBytes(p: Plan, c: nat)
    requires c < Pow256(p.Width())
    ensures Stored(p, c) < Pow256(p.Width()) && FieldBytes(p.Width(), p.bigEndian, Stored(p, c)) == ToBE(p.Width(), c)
    ensures p.bigEndian ==> Stored(p, c) == c
  {
    ToFromBE(ToBE(p.Width(), c));
    ToFromLE(ToBE(p.Width(), c));
    FromToBE(p.Width(), c);
  }

  // ----- tracked parsing of what was serialized

  lemma {:induction false} FitsTail(ops: seq<Op>, env: Env, vs: seq<Val>, k: nat, after: nat)
    requires FitsOps(ops, env, vs, after) && k <= |ops| == |vs|
    ensures FitsOps(ops[k..], ExtendAll(env, ops[..k], vs[..k]), vs[k..], after)
    decreases |ops|
  {
    SplitAt(ops, k);
    SplitAt(vs, k);
    if k > 0 {
      FitsTail(ops[1..], Extend(env, ops[0], vs[0]), vs[1..], k - 1, after);
    }
  }

  lemma {:induction false} FitsHead(a: seq<Op>, b: seq<Op>, env: Env, va: seq<Val>, vb: seq<Val>, after: nat)
    requires |a| == |va| && FitsOps(a + b, env, va + vb, after)
    ensures FitsOps(a, env, va, Codec.Width(SerOps(b, vb)) + after)
    decreases |a|
  {
    if a != [] {
      ConsAppend(a, b);
      ConsAppend(va, vb);
      var env' := Extend(env, a[0], va[0]);
      FitsHead(a[1..], b, env', va[1..], vb, after);
      HeadWidth(a[1..], b, env', va[1..], vb, after);
      FitsFirst(a, env, va, Codec.Width(SerOps(b, vb)) + after);
    }
  }

  lemma {:induction false} ConsAppend<T>(a: seq<T>, b: seq<T>)
    requires a != []
    ensures (a + b)[0] == a[0] && (a + b)[1..] == a[1..] + b
  {
  }

  lemma {:induction false} HeadWidth(a: seq<Op>, b: seq<Op>, env: Env, va: seq<Val>, vb: seq<Val>, after: nat)
    requires |a| == |va| && FitsOps(a + b, env, va + vb, after)
    ensures Codec.Width(SerOps(a + b, va + vb)) == Codec.Width(SerOps(a, va)) + Codec.Width(SerOps(b, vb))
  {
    FitsSerializes(a + b, env, va + vb, after);
    SameCount(a + b, env, va + vb, after);
    SerSplit(a + b, va + vb, |a|);
    assert (a + b)[..|a|] == a && (a + b)[|a|..] == b && (va + vb)[..|a|] == va && (va + vb)[|a|..] == vb;
  }

  lemma {:induction false} FitsParts(ops: seq<Op>, vs: seq<Val>, k: nat, after: nat)
    requires FitsOps(ops, NO_NAMES, vs, after) && k <= |ops|
    ensures |vs| == |ops|
    ensures FitsOps(ops[..k], NO_NAMES, vs[..k], Codec.Width(SerOps(ops[k..], vs[k..])) + after)
    ensures FitsOps(ops[k..], ExtendAll(NO_NAMES, ops[..k], vs[..k]), vs[k..], after)
  {
    SameCount(ops, NO_NAMES, vs, after);
    SplitAt(ops, k);
    SplitAt(vs, k);
    FitsHead(ops[..k], ops[k..], NO_NAMES, vs[..k], vs[k..], after);
    FitsTail(ops, NO_NAMES, vs, k, after);
  }

  lemma {:induction false} TrackedRoundTrip(ops: seq<Op>, k: nat, vs: seq<Val>, tail: bytes)
    requires FitsOps(ops, NO_NAMES, vs, |tail|) && k <= |ops|
    ensures |vs| == |ops| && SerOps(ops, vs).Some?
    ensures ParseTracked(ops, k, SerOps(ops, vs).value + tail) == Ok((vs, Codec.Width(SerOps(ops[..k], vs[..k])), tail))
  {
    FitsParts(ops, vs, k, |tail|);
    SerSplit(ops, vs, k);
    OpsRoundTrip(ops[k..], ExtendAll(NO_NAMES, ops[..k], vs[..k]), vs[k..], tail);
    var rest := SerOps(ops[k..], vs[k..]).value;
    OpsRoundTrip(ops[..k], NO_NAMES, vs[..k], rest + tail);
    var head := SerOps(ops[..k], vs[..k]).value;
    Assoc(head, rest, tail);
    TrackedParts(ops, k, vs, head + rest + tail, rest + tail, tail);
  }

  lemma {:induction false} TrackedParts(ops: seq<Op>, k: nat, vs: seq<Val>, b: bytes, m: bytes, r: bytes)
    requires k <= |ops| == |vs| && |m| <= |b|
    requires ParseOps(ops[..k], NO_NAMES, b) == Ok((vs[..k], m))
    requires ParseOps(ops[k..], ExtendAll(NO_NAMES, ops[..k], vs[..k]), m) == Ok((vs[k..], r))
    ensures ParseTracked(ops, k, b) == Ok((vs, |b| - |m|, r))
  {
    SplitAt(vs, k);
  }

  // ----- the main result

  lemma {:induction false} StampedIgnored(p: Plan, scope: bytes, at: nat)
    requires at + p.Width() <= |scope|
    ensures Expected(p, Stamp(p, scope, at), at) == Expected(p, scope, at)
  {
    FieldIgnored(scope, at, ToBE(p.Width(), Expected(p, scope, at)));
  }

  lemma {:induction false} InternetStamp(p: Plan, scope: bytes, at: nat)
    requires p.algorithm.InternetSum? && at + 2 <= |scope|
    ensures Expected(p, scope, at) == Internet.Checksum(Internet.Patch(scope, at, 0, 0))
    ensures Stamp(p, scope, at) == Internet.Computed(scope, at)
  {
    assert Zeros(2) == [0, 0];
    assert Zeroed(scope, at, 2) == Internet.Patch(scope, at, 0, 0);
    var c := Expected(p, scope, at);
    TwoBytes(c);
    assert Stamp(p, scope, at) == Internet.Patch(scope, at, c / 256, c % 256);
  }

  lemma {:induction false} TwoBytes(c: nat)
    requires c < 0x1_0000
    ensures ToBE(2, c) == [c / 256, c % 256]
  {
    assert Pow256(0) == 1 && Pow256(1) == 256;
    QuotRemAre(c, 256);
    QuotRemAre(c / 256, 256);
    QuotRemAre(c % 256, 1);
    QuotRemAre(c % 256, 256);
    assert ToBE(1, c % 256) == [c % 256] + ToBE(0, 0);
    assert ToBE(2, c) == [c / 256] + ToBE(1, c % 256);
  }

  /** Whether the check accepts what the computation stored: the internet sum needs its field at an even
      offset, the others need it read in the byte order it is patched in. */
  predicate Sound(p: Plan, at: nat, c: nat) {
    if p.algorithm.InternetSum? then at % 2 == 0 || c / 256 == c % 256
    else p.bigEndian || FromLE(ToBE(p.Width(), c)) == c
  }

  lemma {:induction false} StampAccepted(p: Plan, scope: bytes, at: nat)
    requires at + p.Width() <= |scope|
    requires p.algorithm.InternetSum? ==> |scope| <= Internet.SAFE_LENGTH
    ensures var c := Expected(p, scope, at);
            Accepts(p, Stamp(p, scope, at), at, Stored(p, c)) <==> Sound(p, at, c)
  {
    var c := Expected(p, scope, at);
    if p.algorithm.InternetSum? {
      InternetStamp(p, scope, at);
      Internet.ComputeThenVerify(scope, at);
    } else {
      DigestFits(p.algorithm, if p.dropsField then Dropped(scope, at, p.Width()) else Zeroed(scope, at, p.Width()));
      StampedIgnored(p, scope, at);
      StoredBytes(p, c);
    }
  }

  /** What the ops read from a stamped value, and whether the check accepts it. */
  lemma {:induction false} StampedTracked(p: Plan, vs: seq<Val>, tail: bytes)
    requires p.Valid() && FitsOps(p.ops, NO_NAMES, vs, |tail|)
    requires p.algorithm.InternetSum? ==> Codec.Width(SerOps(p.ops, vs)) <= Internet.SAFE_LENGTH
    ensures |vs| == |p.ops| && SerOps(p.ops, vs).Some? && Stamped(p, vs).Some?
    ensures var at, e := Codec.Width(SerOps(p.ops[..p.field], vs[..p.field])), Stamped(p, vs).value;
            at + p.Width() <= |SerOps(p.ops, vs).value| &&
            var c := Expected(p, SerOps(p.ops, vs).value, at);
            && SerOps(p.ops, vs[p.field := Num(Stored(p, c))]) == Some(e)
            && ParseTracked(p.ops, p.field, e + tail) == Ok((vs[p.field := Num(Stored(p, c))], at, tail))
            && (Accepts(p, e, at, Stored(p, c)) <==> Sound(p, at, c))
  {
    FieldPlace(p, vs, |tail|);
    var e := SerOps(p.ops, vs).value;
    var at := Codec.Width(SerOps(p.ops[..p.field], vs[..p.field]));
    var c := Expected(p, e, at);
    StampIsValue(p, vs, e, at, c, |tail|);
    ReplaceAt(vs, p.field, Num(Stored(p, c)));
    TrackedRoundTrip(p.ops, p.field, vs[p.field := Num(Stored(p, c))], tail);
    StampAccepted(p, e, at);
  }

  /** Read by the ops it was written with, a stamped value comes back with only the checksum field replaced,
      exactly when the field is where and how the algorithm needs it; otherwise it is rejected. */
  lemma {:induction false} StampedRoundTrip(p: Plan, vs: seq<Val>, tail: bytes)
    requires p.Valid() && FitsOps(p.ops, NO_NAMES, vs, |tail|)
    requires p.algorithm.InternetSum? ==> Codec.Width(SerOps(p.ops, vs)) <= Internet.SAFE_LENGTH
    ensures |vs| == |p.ops| && SerOps(p.ops, vs).Some? && Stamped(p, vs).Some?
    ensures var at := Codec.Width(SerOps(p.ops[..p.field], vs[..p.field]));
            at + p.Width() <= |SerOps(p.ops, vs).value| &&
            var c := Expected(p, SerOps(p.ops, vs).value, at);
            ParseStamped(p, Stamped(p, vs).value + tail) ==
            if Sound(p, at, c) then Ok((vs[p.field := Num(Stored(p, c))], tail)) else Err(Error.Checksum)
  {
    StampedTracked(p, vs, tail);
    var at := Codec.Width(SerOps(p.ops[..p.field], vs[..p.field]));
    var c := Expected(p, SerOps(p.ops, vs).value, at);
    StampedParses(p, vs[p.field := Num(Stored(p, c))], Stamped(p, vs).value, at, tail);
  }

  lemma {:induction false} FieldPlace(p: Plan, vs: seq<Val>, after: nat)
    requires p.Valid() && FitsOps(p.ops, NO_NAMES, vs, after)
    ensures |vs| == |p.ops| && SerOps(p.ops, vs).Some?
    ensures Codec.Width(SerOps(p.ops[..p.field], vs[..p.field])) + p.Width() <= |SerOps(p.ops, vs).value|
  {
    FitsSerializes(p.ops, NO_NAMES, vs, after);
    ReplaceFits(p.ops, NO_NAMES, p.field, p.name, p.Width(), p.bigEndian, vs, 0, after);
    ReplaceBytes(p.ops, p.field, p.name, p.Width(), p.bigEndian, vs, 0);
  }

  lemma {:induction false} StampedParses(p: Plan, vs: seq<Val>, e: bytes, at: nat, tail: bytes)
    requires p.Valid() && p.field < |vs| && vs[p.field].Num?
    requires ParseTracked(p.ops, p.field, e + tail) == Ok((vs, at, tail))
    ensures ParseStamped(p, e + tail) == if Accepts(p, e, at, vs[p.field].n) then Ok((vs, tail)) else Err(Error.Checksum)
  {
    TakeAppend(e, tail);
  }

  /** The stamped bytes are the encoding of the value with the stored number in the field. */
  lemma {:induction false} StampIsValue(p: Plan, vs: seq<Val>, e: bytes, at: nat, c: nat, after: nat)
    requires p.Valid() && FitsOps(p.ops, NO_NAMES, vs, after)
    requires |vs| == |p.ops| && SerOps(p.ops, vs) == Some(e) && at == Codec.Width(SerOps(p.ops[..p.field], vs[..p.field]))
    requires at + p.Width() <= |e| && c == Expected(p, e, at)
    ensures FitsOps(p.ops, NO_NAMES, vs[p.field := Num(Stored(p, c))], after)
    ensures SerOps(p.ops, vs[p.field := Num(Stored(p, c))]) == Some(Stamp(p, e, at))
  {
    ExpectedStored(p, e, at);
    ReplaceFits(p.ops, NO_NAMES, p.field, p.name, p.Width(), p.bigEndian, vs, Stored(p, c), after);
    StampBytes(p, vs, e, at, c);
  }

  lemma {:induction false} ExpectedStored(p: Plan, e: bytes, at: nat)
    requires at + p.Width() <= |e|
    ensures var c := Expected(p, e, at);
            c < Pow256(p.Width()) && Stored(p, c) < Pow256(p.Width())
            && FieldBytes(p.Width(), p.bigEndian, Stored(p, c)) == ToBE(p.Width(), c)
  {
    DigestFits(p.algorithm, if p.dropsField && !p.algorithm.InternetSum? then Dropped(e, at, p.Width()) else Zeroed(e, at, p.Width()));
    StoredBytes(p, Expected(p, e, at));
  }

  lemma {:induction false} StampBytes(p: Plan, vs: seq<Val>, e: bytes, at: nat, c: nat)
    requires p.Valid() && |vs| == |p.ops| && vs[p.field].Num? && vs[p.field].n >= 0
    requires SerOps(p.ops, vs) == Some(e) && at == Codec.Width(SerOps(p.ops[..p.field], vs[..p.field]))
    requires at + p.Width() <= |e| && c == Expected(p, e, at)
    requires FieldBytes(p.Width(), p.bigEndian, Stored(p, c)) == ToBE(p.Width(), c)
    ensures SerOps(p.ops, vs[p.field := Num(Stored(p, c))]) == Some(Stamp(p, e, at))
  {
    ReplaceBytes(p.ops, p.field, p.name, p.Width(), p.bigEndian, vs, Stored(p, c));
  }

  // ----- the emitted serializer

  lemma {:induction false} FieldInside(p: Plan, vs: seq<Val>)
    requires p.Valid() && |vs| == |p.ops| && SerOps(p.ops, vs).Some?
    ensures SerOps(p.ops[..p.field], vs[..p.field]).Some? && SerOps(p.ops[p.field..], vs[p.field..]).Some?
    ensures var at := Codec.Width(SerOps(p.ops[..p.field], vs[..p.field]));
            at + p.Width() <= |SerOps(p.ops, vs).value|
  {
    SerSplit(p.ops, vs, p.field);
    var rest := SerOps(p.ops[p.field..], vs[p.field..]);
    assert rest == Append(SerOp(p.ops[p.field], vs[p.field]), SerOps(p.ops[p.field..][1..], vs[p.field..][1..]));
    FieldWidthIs(p.ops[p.field], p.name, p.Width(), p.bigEndian, vs[p.field]);
  }

  lemma {:induction false} FieldWidthIs(op: Op, name: string, width: nat, big: bool, v: Val)
    requires IsField([op], 0, name, width, big) && SerOp(op, v).Some?
    ensures |SerOp(op, v).value| == width
  {
  }

  /** Zeroes the field and computes. */
  method ComputeField(p: Plan, w: Writer, start: nat, at: nat) returns (b: bytes)
    requires w.Valid() && start + at + p.Width() <= w.pos
    modifies w.buf
    ensures w.pos == old(w.pos) && w.buf[..] == Splice(old(w.buf[..]), start + at, Zeros(p.Width()))
    ensures b == ToBE(p.Width(), Expected(p, old(w.buf[..])[start..w.pos], at))
  {
    ghost var whole := w.buf[..];
    w.Overwrite(start + at, Zeros(p.Width()));
    var zeroed := w.buf[start..w.pos];
    assert zeroed == w.buf[..][start..w.pos];
    ZeroedInside(whole, start, w.pos, at, p.Width());
    ZeroedIsEnough(p, whole[start..w.pos], at);
    b := ToBE(p.Width(), ExpectedOfZeroed(p, zeroed, at));
  }

  /** Zeroes the field of the scope `e` just written, computes, and puts the result in place. */
  method StampInPlace(p: Plan, w: Writer, start: nat, at: nat, ghost whole: bytes, ghost e: bytes)
    requires Wrote(w, whole, start, e) && start + |e| <= |whole| && at + p.Width() <= |e|
    modifies w.buf
    ensures Wrote(w, whole, start, Stamp(p, e, at))
  {
    ghost var before := w.buf[..];
    SpliceSlice(whole, start, e);
    var b := ComputeField(p, w, start, at);
    w.Overwrite(start + at, b);
    StampedInside(p, before, start, w.pos, at, b);
    SpliceOver(whole, start, e, Stamp(p, e, at));
  }

  function ExpectedOfZeroed(p: Plan, zeroed: bytes, at: nat): nat
    requires at + p.Width() <= |zeroed|
  {
    Digest(p.algorithm, if p.dropsField && !p.algorithm.InternetSum? then Dropped(zeroed, at, p.Width()) else zeroed)
  }

  lemma {:induction false} ZeroedIsEnough(p: Plan, scope: bytes, at: nat)
    requires at + p.Width() <= |scope|
    ensures ExpectedOfZeroed(p, Zeroed(scope, at, p.Width()), at) == Expected(p, scope, at)
  {
    DroppedOfZeroed(scope, at, p.Width());
  }

  lemma {:induction false} ZeroedInside(whole: bytes, start: nat, end: nat, at: nat, n: nat)
    requires start <= end <= |whole| && start + at + n <= end
    ensures Splice(whole, start + at, Zeros(n))[start..end] == Zeroed(whole[start..end], at, n)
  {
  }

  lemma {:induction false} StampedInside(p: Plan, whole: bytes, start: nat, end: nat, at: nat, b: bytes)
    requires start <= end <= |whole| && start + at + p.Width() <= end
    requires b == ToBE(p.Width(), Expected(p, whole[start..end], at))
    ensures Splice(Splice(whole, start + at, Zeros(p.Width())), start + at, b)
         == Splice(whole, start, Stamp(p, whole[start..end], at))
  {
    SpliceOver(whole, start + at, Zeros(p.Width()), b);
    SpliceInside(whole, start, end, at, b);
  }

  lemma {:induction false} SpliceInside(whole: bytes, start: nat, end: nat, at: nat, b: bytes)
    requires start <= end <= |whole| && start + at + |b| <= end
    ensures var scope := whole[start..end];
            Splice(whole, start + at, b) == Splice(whole, start, scope[..at] + b + scope[at + |b|..])
  {
    var scope := whole[start..end];
    assert whole[..start + at] == whole[..start] + scope[..at];
    assert whole[start + at + |b|..] == scope[at + |b|..] + whole[end..];
  }

  lemma {:induction false} DroppedOfZeroed(scope: bytes, at: nat, n: nat)
    requires at + n <= |scope|
    ensures Dropped(Zeroed(scope, at, n), at, n) == Dropped(scope, at, n)
  {
  }

  method WriteStamped(p: Plan, vs: seq<Val>, w: Writer) returns (r: Result<()>)
    requires p.Valid() && w.Valid()
    modifies w, w.buf
    ensures SC.Emitted(w, old(w.buf[..]), old(w.pos), Stamped(p, vs), r)
  {
    ghost var whole := w.buf[..];
    var start := w.pos;
    if |vs| != |p.ops| {
      return Err(Undefined);
    }
    var k := p.field;
    ghost var head, tail := SerOps(p.ops[..k], vs[..k]), SerOps(p.ops[k..], vs[k..]);
    SerSplit(p.ops, vs, k);
    r := SC.SerializeItems(p.ops[..k], vs[..k], w);
    if r.Err? {
      SC.EmittedBefore(w, whole, start, head, r, tail);
      return;
    }
    var at := w.pos - start;
    r := SC.SerializeItems(p.ops[k..], vs[k..], w);
    SC.EmittedAfter(w, whole, start, head.value, tail, r);
    if r.Ok? {
      FieldInside(p, vs);
      StampInPlace(p, w, start, at, whole, SerOps(p.ops, vs).value);
    }
  }

  lemma {:induction false} SpliceOver(whole: bytes, start: nat, e: bytes, f: bytes)
    requires start + |e| <= |whole| && |f| == |e|
    ensures Splice(Splice(whole, start, e), start, f) == Splice(whole, start, f)
  {
  }

  // ----- corruption

  /** Two different scopes with the same CRC field never both pass when they differ only inside four
      consecutive bytes. */
  lemma {:induction false} CorruptionDetected(p: Plan, scope: bytes, other: bytes, at: nat, field: int, i: nat)
    requires (p.algorithm.Crc32? || p.algorithm.Crc32c?) && at + 4 <= |scope| == |other|
    requires scope[at..at + 4] == other[at..at + 4] && scope != other
    requires forall k :: 0 <= k < |scope| && !(i <= k < i + 4) ==> scope[k] == other[k]
    requires Accepts(p, scope, at, field)
    ensures !Accepts(p, other, at, field)
  {
    Crc.BothPolys();
    var poly := if p.algorithm.Crc32? then Crc.IEEE else Crc.CASTAGNOLI;
    var k :| 0 <= k < |scope| && scope[k] != other[k];
    SameField(scope, other, at);
    if p.dropsField {
      DroppedDiffer(scope, other, at, i, k);
      Crc.NearbyChangesDetected(poly, Dropped(scope, at, 4), Dropped(other, at, 4), DroppedWindow(at, i, k));
    } else {
      ZeroedDiffer(scope, other, at, i, k);
      Crc.NearbyChangesDetected(poly, Zeroed(scope, at, 4), Zeroed(other, at, 4), i);
    }
  }

  lemma {:induction false} SameField(scope: bytes, other: bytes, at: nat)
    requires at + 4 <= |scope| == |other| && scope[at..at + 4] == other[at..at + 4]
    ensures forall k :: at <= k < at + 4 ==> scope[k] == other[k]
  {
    forall k | at <= k < at + 4 ensures scope[k] == other[k] {
      assert scope[k] == scope[at..at + 4][k - at] == other[at..at + 4][k - at];
    }
  }

  lemma {:induction false} ZeroedDiffer(scope: bytes, other: bytes, at: nat, i: nat, k: nat)
    requires at + 4 <= |scope| == |other| && k < |scope| && scope[k] != other[k]
    requires forall j :: at <= j < at + 4 ==> scope[j] == other[j]
    requires forall j :: 0 <= j < |scope| && !(i <= j < i + 4) ==> scope[j] == other[j]
    ensures Zeroed(scope, at, 4) != Zeroed(other, at, 4)
    ensures forall j :: 0 <= j < |scope| && !(i <= j < i + 4) ==> Zeroed(scope, at, 4)[j] == Zeroed(other, at, 4)[j]
  {
    forall j | 0 <= j < |scope|
      ensures Zeroed(scope, at, 4)[j] == Zeroed(other, at, 4)[j] <==> scope[j] == other[j]
    {
      ZeroedAt(scope, at, 4, j);
      ZeroedAt(other, at, 4, j);
    }
    assert Zeroed(scope, at, 4)[k] != Zeroed(other, at, 4)[k];
  }

  /** Where four bytes around a difference are once the field is left out. */
  function DroppedWindow(at: nat, i: nat, k: nat): nat {
    if k < at then i else if i < at + 4 then at else i - 4
  }

  lemma {:induction false} DroppedDiffer(scope: bytes, other: bytes, at: nat, i: nat, k: nat)
    requires at + 4 <= |scope| == |other| && k < |scope| && scope[k] != other[k]
    requires forall j :: at <= j < at + 4 ==> scope[j] == other[j]
    requires forall j :: 0 <= j < |scope| && !(i <= j < i + 4) ==> scope[j] == other[j]
    ensures Dropped(scope, at, 4) != Dropped(other, at, 4)
    ensures var w := DroppedWindow(at, i, k);
            forall j :: 0 <= j < |scope| - 4 && !(w <= j < w + 4) ==> Dropped(scope, at, 4)[j] == Dropped(other, at, 4)[j]
  {
    var a, b := Dropped(scope, at, 4), Dropped(other, at, 4);
    var at' := if k < at then k else k - 4;
    assert a[at'] == scope[k] && b[at'] == other[k];
  }
}

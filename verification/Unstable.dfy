/** What breaks stability: scopes written shorter than they were read, bytes of a scope that no field takes,
    and the three kinds of field that a C capsule's payload reads in its own way. */
module Unstable {
  import opened Bits
  import opened Bytes
  import opened Outcome
  import opened Expr
  import opened Codec
  import opened RoundTrip
  import opened Scopes
  import opened Stability
  import opened Capsules
  import S = Scalars
  import BG = BitGroup
  import PV = PrefixVarInt

  function Byte(name: string): Op {
    Field(name, Scalar(S.Prim(1, true, S.Unsigned)))
  }

  /** A capsule with a one-byte length and the payload `ops`. */
  function Sized(len: string, ops: seq<Op>, backend: Backend): Type {
    Capsule([Byte(len)], Ref(len), Lit(0), [Variant(Wildcard, ops)], backend)
  }

  function SizedValue(n: nat, vs: seq<Val>): Val {
    Encapsulated([Num(n)], 0, vs)
  }

  function Header(len: string, n: nat): Env {
    Extend(NO_NAMES, Byte(len), Num(n))
  }

  lemma {:induction false} OneOp(op: Op, env: Env, v: Val)
    ensures ExtendAll(env, [op], [v]) == Extend(env, op, v)
    ensures SerOp(op, v).Some? ==> SerOps([op], [v]) == SerOp(op, v)
    ensures OpsKept([op], env, [v]) <==> OpKept(op, env, v)
  {
    assert [op][1..] == [] && [v][1..] == [];
    assert ExtendAll(env, [op], [v]) == ExtendAll(Extend(env, op, v), [], []);
    assert SerOps([op], [v]) == Append(SerOp(op, v), Some([]));
    assert SerOp(op, v).Some? ==> SerOp(op, v).value + [] == SerOp(op, v).value;
  }

  lemma {:induction false} OneOpParse(op: Op, env: Env, b: bytes, v: Val, r: bytes)
    requires ParseOp(op, env, b) == Ok((v, r))
    ensures ParseOps([op], env, b) == Ok(([v], r))
  {
    assert [op][1..] == [] && [v][1..] == [];
    assert ParseOps([], Extend(env, op, v), r) == Ok(([], r));
    ConsOps([op], env, [v], b, r, r);
  }

  lemma {:induction false} OneOpPayload(op: Op, env: Env, b: bytes, rest: bytes, v: Val, r: bytes)
    requires ParsePayloadOp(op, env, b, rest) == Ok((v, r)) && !op.Later?
    ensures ParsePayload([op], env, b, rest) == Ok(([v], r))
  {
    assert [op][1..] == [] && [v][1..] == [];
    assert RunPayload([], Extend(env, op, v), r, rest) == Ok(([], r));
    ConsPayload([op], env, [v], b, r, r, rest);
    FinalIsRead([op], [v]);
  }

  lemma {:induction false} ByteParses(name: string, env: Env, n: nat, rest: bytes)
    requires n < 256
    ensures ParseOp(Byte(name), env, [n] + rest) == Ok((Num(n), rest))
    ensures SerOp(Byte(name), Num(n)) == Some([n])
  {
    var b: bytes := [n] + rest;
    assert b[..1] == [n] && b[1..] == rest;
    assert FromBE([n]) == n by {
      assert Pow256(0) == 1 && FromBE([n][1..]) == 0;
      JoinIs(n, 1, 0);
    }
    assert Pow256(1) == 256 * Pow256(0);
    FromToBE(1, n);
    ToFromBE([n]);
  }

  lemma {:induction false} LengthByte(len: string, n: nat, rest: bytes)
    requires n < 256
    ensures ParseOps([Byte(len)], NO_NAMES, [n] + rest) == Ok(([Num(n)], rest))
    ensures SerOps([Byte(len)], [Num(n)]) == Some([n])
    ensures ExtendAll(NO_NAMES, [Byte(len)], [Num(n)]) == Header(len, n)
    ensures Size(Ref(len), Header(len, n)) == Some(n)
  {
    ByteParses(len, NO_NAMES, n, rest);
    OneOpParse(Byte(len), NO_NAMES, [n] + rest, Num(n), rest);
    OneOp(Byte(len), NO_NAMES, Num(n));
  }

  lemma {:induction false} SizedParses(len: string, ops: seq<Op>, backend: Backend, scope: bytes, rest: bytes, vs: seq<Val>, unused: bytes)
    requires |scope| < 256
    requires Payload(Sized(len, ops, backend), 0, PayloadEnv(Header(len, |scope|)), scope, rest) == Ok((vs, unused))
    ensures ParseType(Sized(len, ops, backend), [|scope|] + (scope + rest)) ==
            if backend.C? && unused != [] then Err(TrailingData) else Ok((SizedValue(|scope|, vs), rest))
  {
    LengthByte(len, |scope|, scope + rest);
    TakeAppend(scope, rest);
    assert Select([Variant(Wildcard, ops)], 0) == 0;
    assert Eval(Lit(0), Header(len, |scope|)) == Some(CVal(INT, 0));
    CapsuleParses(Sized(len, ops, backend), SizedValue(|scope|, vs), [|scope|] + (scope + rest), scope + rest, scope, rest, 0, unused);
  }

  /** A payload written shorter than its scope: the capsule is cut short. */
  lemma {:induction false} SizedCutShort(len: string, ops: seq<Op>, backend: Backend, n: nat, vs: seq<Val>)
    requires n < 256 && SerOps(ops, vs).Some? && |SerOps(ops, vs).value| < n
    ensures var t, c := Sized(len, ops, backend), SizedValue(n, vs);
            SerType(t, c).Some? && ParseType(t, SerType(t, c).value) == Err(ShortBuffer)
  {
    var e := SerOps(ops, vs).value;
    LengthByte(len, n, e);
    CutShort(Sized(len, ops, backend), SizedValue(n, vs), [n], e, n);
  }

  // ----- longer forms and leftovers

  lemma {:induction false} FieldOfScalar(name: string, s: S.Scalar, env: Env, b: bytes, rest: bytes, n: int)
    requires S.Parse(s, b) == Ok((n, [])) && S.Serialize(s, n).Ok?
    ensures var op := Field(name, Scalar(s));
            && ParseOp(op, env, b) == Ok((Num(n), [])) && ParsePayloadOp(op, env, b, rest) == Ok((Num(n), []))
            && SerOp(op, Num(n)) == Some(S.Serialize(s, n).value)
  {
    assert ParseType(Scalar(s), b) == Ok((Num(n), []));
  }

  lemma {:induction false} OneOpEither(op: Op, env: Env, len: string, backend: Backend, b: bytes, rest: bytes, v: Val, r: bytes)
    requires ParseOp(op, env, b) == ParsePayloadOp(op, env, b, rest) == Ok((v, r)) && !op.Later?
    ensures Payload(Sized(len, [op], backend), 0, env, b, rest) == Ok(([v], r))
  {
    OneOpParse(op, env, b, v, r);
    OneOpPayload(op, env, b, rest, v, r);
  }

  /** A scalar read from a longer form than it is written in, in a `within` scope: the capsule parses,
      and what is written for it does not. */
  lemma {:induction false} LongFormInCapsule(len: string, name: string, s: S.Scalar, backend: Backend, long: bytes, n: int, rest: bytes)
    requires |long| < 256 && S.Parse(s, long) == Ok((n, []))
    requires S.Serialize(s, n).Ok? && |S.Serialize(s, n).value| < |long|
    ensures var t := Sized(len, [Field(name, Scalar(s))], backend);
            var c := SizedValue(|long|, [Num(n)]);
            && ParseType(t, [|long|] + (long + rest)) == Ok((c, rest))
            && SerType(t, c).Some? && ParseType(t, SerType(t, c).value) == Err(ShortBuffer)
  {
    var op, env := Field(name, Scalar(s)), PayloadEnv(Header(len, |long|));
    FieldOfScalar(name, s, env, long, rest, n);
    OneOpEither(op, env, len, backend, long, rest, Num(n), []);
    SizedParses(len, [op], backend, long, rest, [Num(n)], []);
    OneOp(op, env, Num(n));
    SizedCutShort(len, [op], backend, |long|, [Num(n)]);
  }

  /** So every table without @strict has a capsule that its serializer breaks, as soon as a value fits two
      of its branches. */
  lemma {:induction false} LooseVarIntInCapsule(len: string, name: string, s: PV.Table, backend: Backend, i: nat, j: nat, v: nat, rest: bytes)
    requires PV.Valid(s) && !s.strict && i < j < |s.branches| && v <= s.branches[i].Max()
    ensures v <= s.branches[j].Max()
    ensures var long := PV.Encode(s, s.branches[j], v);
            var t := Sized(len, [Field(name, Scalar(S.Prefix(s)))], backend);
            var c := SizedValue(|long|, [Num(v)]);
            && ParseType(t, [|long|] + (long + rest)) == Ok((c, rest))
            && SerType(t, c).Some? && ParseType(t, SerType(t, c).value) == Err(ShortBuffer)
  {
    PV.LongForm(s, i, j, v, []);
    var long := PV.Encode(s, s.branches[j], v);
    Assoc(long, [], []);
    LongFormInCapsule(len, name, S.Prefix(s), backend, long, v, rest);
  }

  /** Bytes left over in the scope: a parser with the check rejects them, one without it accepts a
      capsule that cannot be written back. */
  lemma {:induction false} LeftoverInCapsule(len: string, name: string, size: nat, scope: bytes, rest: bytes)
    requires size < |scope| < 256
    ensures var ops := [Raw(name, Fixed(size))];
            var c := SizedValue(|scope|, [Data(scope[..size])]);
            && ParseType(Sized(len, ops, C), [|scope|] + (scope + rest)) == Err(TrailingData)
            && ParseType(Sized(len, ops, Rust), [|scope|] + (scope + rest)) == Ok((c, rest))
            && SerType(Sized(len, ops, Rust), c).Some?
            && ParseType(Sized(len, ops, Rust), SerType(Sized(len, ops, Rust), c).value) == Err(ShortBuffer)
  {
    var op, env, v := Raw(name, Fixed(size)), PayloadEnv(Header(len, |scope|)), Data(scope[..size]);
    OneOpParse(op, env, scope, v, scope[size..]);
    OneOpPayload(op, env, scope, rest, v, scope[size..]);
    SizedParses(len, [op], C, scope, rest, [v], scope[size..]);
    SizedParses(len, [op], Rust, scope, rest, [v], scope[size..]);
    OneOp(op, env, v);
    SizedCutShort(len, [op], Rust, |scope|, [v]);
  }

  // ----- the C payload code

  /** Two fields of a bit group in a C payload: the group is read twice and written once. A scope of one
      group, which is what the serializer writes, is too short for the parser; one of two is accepted, the
      second group read over the first, and cannot be written back. Rust reads one and leaves the other. */
  lemma {:induction false} GroupTwiceInCapsule(len: string, names: seq<string>, g: Group, first: bytes, second: bytes, rest: bytes)
    requires |first| == |second| == ContainerBytes(g.totalBits)
    ensures ParseGroup(g, first).Ok? && ParseGroup(g, second).Ok?
    ensures var ops := [BitFields(names, g), Later(names, g)];
            var n := |first + second|;
            var c := SizedValue(n, [ParseGroup(g, second).value.0, Checked]);
            var d := SizedValue(n, [ParseGroup(g, first).value.0, Checked]);
            && ParseType(Sized(len, ops, C), [|first|] + (first + rest)) == Err(ShortBuffer)
            && ParseType(Sized(len, ops, C), [n] + (first + second + rest)) == Ok((c, rest))
            && SerType(Sized(len, ops, C), c).Some?
            && ParseType(Sized(len, ops, C), SerType(Sized(len, ops, C), c).value) == Err(ShortBuffer)
            && ParseType(Sized(len, ops, Rust), [n] + (first + second + rest)) == Ok((d, rest))
  {
    var ops, n := [BitFields(names, g), Later(names, g)], |first + second|;
    var v, w := ParseGroup(g, first).value.0, ParseGroup(g, second).value.0;
    GroupReads(names, g, PayloadEnv(Header(len, n)), first, second, rest);
    SizedParses(len, ops, C, first + second, rest, [w, Checked], []);
    SizedParses(len, ops, Rust, first + second, rest, [v, Checked], second);
    SizedCutShort(len, ops, C, n, [w, Checked]);
    GroupOnce(names, g, PayloadEnv(Header(len, |first|)), first, rest);
    SizedFails(len, ops, first, rest, ShortBuffer);
  }

  lemma {:induction false} SizedFails(len: string, ops: seq<Op>, scope: bytes, rest: bytes, error: Error)
    requires |scope| < 256 && ParsePayload(ops, PayloadEnv(Header(len, |scope|)), scope, rest) == Err(error)
    ensures ParseType(Sized(len, ops, C), [|scope|] + (scope + rest)) == Err(error)
  {
    LengthByte(len, |scope|, scope + rest);
    TakeAppend(scope, rest);
    assert Select([Variant(Wildcard, ops)], 0) == 0;
    assert Eval(Lit(0), Header(len, |scope|)) == Some(CVal(INT, 0));
  }

  lemma {:induction false} GroupParses(g: Group, d: bytes, rest: bytes)
    requires |d| == ContainerBytes(g.totalBits)
    ensures ParseGroup(g, d).Ok? && IsReading(g, ParseGroup(g, d).value.0) && ParseGroup(g, d).value.1 == []
    ensures ParseGroup(g, d + rest) == Ok((ParseGroup(g, d).value.0, rest))
    ensures ParseGroup(g, []) == Err(ShortBuffer)
  {
    TakeAppend(d, rest);
    TakeAppend(d, []);
    Assoc(d, [], []);
  }

  lemma {:induction false} TwoOps(a: Op, b: Op)
    ensures [a, b][1..] == [b] && [b][1..] == []
  {
  }

  lemma {:induction false} TwoVals(v: Val, w: Val)
    ensures [v, w][1..] == [w] && [w][1..] == [] && [v] + [w] == [v, w] && [w] + [] == [w]
  {
  }

  lemma {:induction false} GroupReads(names: seq<string>, g: Group, env: Env, first: bytes, second: bytes, rest: bytes)
    requires |first| == |second| == ContainerBytes(g.totalBits)
    ensures var ops := [BitFields(names, g), Later(names, g)];
            && ParseGroup(g, first).Ok? && ParseGroup(g, second).Ok?
            && var v, w := ParseGroup(g, first).value.0, ParseGroup(g, second).value.0;
               && ParsePayload(ops, env, first + second, rest) == Ok(([w, Checked], []))
               && ParseOps(ops, env, first + second) == Ok(([v, Checked], second))
               && SerOps(ops, [w, Checked]).Some? && |SerOps(ops, [w, Checked]).value| < |first + second|
  {
    var a, b := BitFields(names, g), Later(names, g);
    GroupParses(g, first, second);
    GroupParses(g, second, []);
    var v, w := ParseGroup(g, first).value.0, ParseGroup(g, second).value.0;
    TwoOps(a, b);
    TwoVals(v, w);
    TwoVals(v, Checked);
    TwoVals(w, Checked);
    var env' := Extend(env, a, v);
    assert RunPayload([], Extend(env', b, w), [], rest) == Ok(([], []));
    ConsPayload([b], env', [w], second, [], [], rest);
    ConsPayload([a, b], env, [v, w], first + second, second, [], rest);
    assert Final([b], [w]) == [Checked] + Final([], []);
    assert LastReading(names, g, v, [b], [w]) == w;
    OneOpParse(b, env', second, Checked, second);
    ConsOps([a, b], env, [v, Checked], first + second, second, second);
    OneOp(b, env', Checked);
    assert SerOps([a, b], [w, Checked]) == Append(SerOp(a, w), SerOps([b], [Checked]));
  }

  lemma {:induction false} GroupOnce(names: seq<string>, g: Group, env: Env, first: bytes, rest: bytes)
    requires |first| == ContainerBytes(g.totalBits)
    ensures ParsePayload([BitFields(names, g), Later(names, g)], env, first, rest) == Err(ShortBuffer)
  {
    var a, b := BitFields(names, g), Later(names, g);
    GroupParses(g, first, []);
    TwoOps(a, b);
    var env' := Extend(env, a, ParseGroup(g, first).value.0);
    RunFails([b], env', [], rest, ShortBuffer);
    RunFailsLater([a, b], env, first, rest, ShortBuffer);
  }

  lemma {:induction false} RunFails(ops: seq<Op>, env: Env, b: bytes, rest: bytes, error: Error)
    requires ops != [] && ParsePayloadOp(ops[0], env, b, rest) == Err(error)
    ensures RunPayload(ops, env, b, rest) == ParsePayload(ops, env, b, rest) == Err(error)
  {
  }

  lemma {:induction false} RunFailsLater(ops: seq<Op>, env: Env, b: bytes, rest: bytes, error: Error)
    requires ops != [] && ParsePayloadOp(ops[0], env, b, rest).Ok?
    requires var (v, m) := ParsePayloadOp(ops[0], env, b, rest).value;
             RunPayload(ops[1..], Extend(env, ops[0], v), m, rest) == Err(error)
    ensures ParsePayload(ops, env, b, rest) == Err(error)
  {
  }

  /** An array that fills the scope of a C payload takes none of it when nothing follows the capsule, so that
      any scope but the empty one is rejected; when something follows it always ends in an error. */
  lemma {:induction false} FillInCapsule(len: string, name: string, t: Type, max: nat, scope: bytes, rest: bytes)
    requires 0 < |scope| < 256
    ensures ParseType(Sized(len, [Fill(name, t, None, max)], C), [|scope|] + (scope + rest)) ==
            Err(if rest == [] then TrailingData else EndlessFill(t, max, scope))
  {
    var op, env := Fill(name, t, None, max), PayloadEnv(Header(len, |scope|));
    if rest == [] {
      OneOpPayload(op, env, scope, rest, Elems([]), scope);
      SizedParses(len, [op], C, scope, rest, [Elems([])], scope);
    } else {
      RunFails([op], env, scope, rest, EndlessFill(t, max, scope));
      SizedFails(len, [op], scope, rest, EndlessFill(t, max, scope));
    }
  }

  /** A capsule of a flags byte, a length, an optional length byte and bytes of that length or what remains. */
  function Optional(): Type {
    Capsule([Byte("flags"), Byte("length")], Ref("length"), Lit(0), [Variant(Wildcard, OptionalOps())], C)
  }

  function OptionalOps(): seq<Op> {
    [When("len", Bin(BitAnd, Ref("flags"), Lit(1)), Scalar(S.Prim(1, true, S.Unsigned))), Raw("data", LengthOrRemaining("len"))]
  }

  function OptionalEnv(n: nat): Env {
    Extend(Extend(NO_NAMES, Byte("flags"), Num(0)), Byte("length"), Num(n))
  }

  function OptionalValue(n: nat, data: bytes): Val {
    Encapsulated([Num(0), Num(n)], 0, [Absent, Data(data)])
  }

  lemma {:induction false} OptionalHeader(n: nat, rest: bytes)
    requires n < 256
    ensures var ops := [Byte("flags"), Byte("length")];
            && ParseOps(ops, NO_NAMES, [0, n] + rest) == Ok(([Num(0), Num(n)], rest))
            && SerOps(ops, [Num(0), Num(n)]) == Some([0, n])
            && ExtendAll(NO_NAMES, ops, [Num(0), Num(n)]) == OptionalEnv(n)
    ensures Size(Ref("length"), OptionalEnv(n)) == Some(n)
  {
    var a, b := Byte("flags"), Byte("length");
    TwoOps(a, b);
    TwoVals(Num(0), Num(n));
    ByteParses("flags", NO_NAMES, 0, [n] + rest);
    ByteParses("length", Extend(NO_NAMES, a, Num(0)), n, rest);
    assert [0, n] + rest == [0] + ([n] + rest) && [0] + [n] == [0, n];
    OneOpParse(b, Extend(NO_NAMES, a, Num(0)), [n] + rest, Num(n), rest);
    ConsOps([a, b], NO_NAMES, [Num(0), Num(n)], [0, n] + rest, [n] + rest, rest);
    OneOp(b, Extend(NO_NAMES, a, Num(0)), Num(n));
  }

  lemma {:induction false} FlagsClear(n: nat)
    ensures Truth(Bin(BitAnd, Ref("flags"), Lit(1)), PayloadEnv(OptionalEnv(n))) == Some(false)
  {
    var env, flags, one := PayloadEnv(OptionalEnv(n)), CVal(CType(8, false), 0), CVal(INT, 1);
    assert env.Lookup("flags") == Some(Bound(flags));
    assert Eval(Ref("flags"), env) == Some(flags) && Eval(Lit(1), env) == Some(one);
    assert Bitwise(BitAnd, INT, 0, 1) == CVal(INT, 0);
    assert Arith(BitAnd, flags, one) == Some(CVal(INT, 0));
  }

  lemma {:induction false} OptionalPayload(n: nat, scope: bytes, rest: bytes, data: bytes)
    requires n < 256
    ensures var env := PayloadEnv(OptionalEnv(n));
            && ParsePayload(OptionalOps(), env, scope, rest) == Ok(([Absent, Data((scope + rest)[..|rest|])], []))
            && SerOps(OptionalOps(), [Absent, Data(data)]) == Some(data)
            && OpsKept(OptionalOps(), env, [Absent, Data(data)])
            && (NoOverrun(OptionalOps(), env, [Absent, Data(data)]) <==> data == [])
  {
    FlagsClear(n);
    var env, a, b := PayloadEnv(OptionalEnv(n)), OptionalOps()[0], OptionalOps()[1];
    var v, env' := Data((scope + rest)[..|rest|]), Extend(env, a, Absent);
    TwoOps(a, b);
    TwoVals(Absent, v);
    TwoVals(Absent, Data(data));
    assert env'.Lookup("len") == Some(Missing);
    assert RunPayload([], Extend(env', b, v), [], rest) == Ok(([], []));
    ConsPayload([b], env', [v], scope, [], [], rest);
    ConsPayload([a, b], env, [Absent, v], scope, scope, [], rest);
    FinalIsRead([a, b], [Absent, v]);
    OneOp(b, env', Data(data));
    Assoc(data, [], []);
    assert SerOps([a, b], [Absent, Data(data)]) == Append(SerOp(a, Absent), SerOps([b], [Data(data)]));
    assert OpsKept([a, b], env, [Absent, Data(data)]) <==> OpKept(a, env, Absent) && OpsKept([b], env', [Data(data)]);
    assert NoOverrun([a, b], env, [Absent, Data(data)]) <==> OpInside(a, env, Absent) && NoOverrun([b], env', [Data(data)]);
    assert NoOverrun([b], env', [Data(data)]) <==> OpInside(b, env', Data(data)) && NoOverrun([], Extend(env', b, Data(data)), []);
  }

  lemma {:induction false} OptionalSelects(n: nat)
    ensures var t := Optional();
            && Select(t.variants, 0) == 0 && t.variants[0].ops == OptionalOps()
            && Eval(t.selector, OptionalEnv(n)) == Some(CVal(INT, 0))
  {
  }

  lemma {:induction false} OptionalParses(scope: bytes, rest: bytes, data: bytes)
    requires |scope| < 256 && data == (scope + rest)[..|rest|]
    ensures ParseType(Optional(), [0, |scope|] + (scope + rest)) == Ok((OptionalValue(|scope|, data), rest))
  {
    var n, b, r := |scope|, [0, |scope|] + (scope + rest), scope + rest;
    OptionalHeader(n, r);
    OptionalPayload(n, scope, rest, []);
    OptionalSelects(n);
    TakeAppend(scope, rest);
    CapsuleParses(Optional(), OptionalValue(n, data), b, r, scope, rest, 0, []);
  }

  /** Bytes of an absent length in a C payload are as many as follow the capsule, and start in its scope. What
      is written for them parses again only if the scope was empty and nothing followed. */
  lemma {:induction false} AbsentLengthInCapsule(scope: bytes, rest: bytes)
    requires |scope| < 256
    ensures var data := (scope + rest)[..|rest|];
            var c := OptionalValue(|scope|, data);
            && ParseType(Optional(), [0, |scope|] + (scope + rest)) == Ok((c, rest))
            && SerType(Optional(), c) == Some([0, |scope|] + data)
            && (ParseType(Optional(), [0, |scope|] + data) == Ok((c, [])) <==> scope == [] && rest == [])
  {
    var n, data := |scope|, (scope + rest)[..|rest|];
    OptionalParses(scope, rest, data);
    OptionalWritten(n, data);
    OptionalKept(n, data);
    OptionalContained();
    OutermostStableIff(Optional(), [0, n] + (scope + rest));
  }

  lemma {:induction false} OptionalWritten(n: nat, data: bytes)
    requires n < 256
    ensures SerType(Optional(), OptionalValue(n, data)) == Some([0, n] + data)
  {
    OptionalHeader(n, []);
    OptionalPayload(n, [], [], data);
    CapsuleSerializes(Optional(), OptionalValue(n, data), [0, n], data);
  }

  lemma {:induction false} OptionalKept(n: nat, data: bytes)
    requires n < 256
    ensures var t, c := Optional(), OptionalValue(n, data);
            && (ScopesKept(t, c) <==> |data| == n)
            && ExtendAll(NO_NAMES, t.header, c.header) == OptionalEnv(n)
            && (NoOverrun(OptionalOps(), PayloadEnv(OptionalEnv(n)), c.body) <==> data == [])
  {
    OptionalHeader(n, []);
    OptionalPayload(n, [], [], data);
    OptionalHeaderKept(n);
    CapsuleKept(Optional(), OptionalValue(n, data));
  }

  lemma {:induction false} OptionalHeaderKept(n: nat)
    ensures OpsKept([Byte("flags"), Byte("length")], NO_NAMES, [Num(0), Num(n)])
  {
    TwoOps(Byte("flags"), Byte("length"));
    TwoVals(Num(0), Num(n));
    OneOp(Byte("length"), Extend(NO_NAMES, Byte("flags"), Num(0)), Num(n));
  }

  lemma {:induction false} OptionalContained()
    ensures PartsContained(Optional()) && NoLater(OptionalOps())
  {
    assert OpContained(Byte("flags")) && OpContained(Byte("length")) && OpsContained(OptionalOps());
  }
}

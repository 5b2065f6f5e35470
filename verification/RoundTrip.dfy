/** parse(serialize(v) ++ t) == (v, t) for every type and every value that agrees with it. */
module RoundTrip {
  import opened Bits
  import opened Bytes
  import opened Outcome
  import opened Expr
  import opened Codec
  import S = Scalars
  import BG = BitGroup

  lemma {:induction false} Assoc(a: bytes, b: bytes, c: bytes)
    ensures a + b + c == a + (b + c) && a + [] == a && [] + a == a
  {
  }

  lemma {:induction false} Rejoin<T>(xs: seq<T>)
    requires xs != []
    ensures [xs[0]] + xs[1..] == xs
  {
  }

  lemma {:induction false} FitsFirst(ops: seq<Op>, env: Env, vs: seq<Val>, after: nat)
    requires ops != [] && vs != []
    requires FitsOp(ops[0], env, vs[0], Width(SerOps(ops[1..], vs[1..])) + after)
    requires FitsOps(ops[1..], Extend(env, ops[0], vs[0]), vs[1..], after)
    ensures FitsOps(ops, env, vs, after)
  {
  }

  lemma {:induction false} PayloadFitsFirst(ops: seq<Op>, env: Env, vs: seq<Val>, outer: nat)
    requires ops != [] && vs != []
    requires FitsPayloadOp(ops[0], env, vs[0], Width(SerOps(ops[1..], vs[1..])), outer)
    requires FitsPayload(ops[1..], Extend(env, ops[0], vs[0]), vs[1..], outer)
    ensures FitsPayload(ops, env, vs, outer)
  {
  }

  lemma {:induction false} ContainerHolds(g: Group)
    ensures Pow2(g.totalBits) <= Pow256(ContainerBytes(g.totalBits))
  {
    Pow2Mono(g.totalBits, 8 * ContainerBytes(g.totalBits));
    Pow256IsPow2(ContainerBytes(g.totalBits));
  }

  lemma {:induction false} GroupRoundTrip(g: Group, vs: seq<Val>, tail: bytes)
    requires vs == Nums(NatsOf(vs)) && BG.Fits(g.members, NatsOf(vs))
    ensures SerGroup(g, vs).Some? && |SerGroup(g, vs).value| == ContainerBytes(g.totalBits)
    ensures ParseGroup(g, SerGroup(g, vs).value + tail) == Ok((Struct(vs), tail))
  {
    var ns := NatsOf(vs);
    var n := ContainerBytes(g.totalBits);
    var w := BG.Pack(g.members, ns);
    BG.PackUnpack(g, ns);
    BG.FitsTruncated(g.members, ns);
    ContainerHolds(g);
    var e := SerGroup(g, vs).value;
    assert (e + tail)[..n] == e && (e + tail)[n..] == tail;
    FromToBE(n, w);
    FromToLE(n, w);
  }

  lemma {:induction false} TakeAppend(d: bytes, tail: bytes)
    ensures Take(Some(|d|), d + tail) == Ok((d, tail))
  {
    assert (d + tail)[..|d|] == d && (d + tail)[|d|..] == tail;
  }

  lemma {:induction false} RawRoundTrip(spec: BytesSpec, env: Env, d: bytes, tail: bytes)
    requires FitsRaw(spec, env, |d|, |tail|)
    ensures ParseRaw(spec, env, d + tail) == Ok((Data(d), tail))
  {
    TakeAppend(d, tail);
    if |tail| == 0 {
      assert d + tail == d && tail == [];
    }
  }

  lemma {:induction false} TypeRoundTrip(t: Type, v: Val, tail: bytes)
    requires FitsType(t, v, |tail|)
    ensures SerType(t, v).Some?
    ensures ParseType(t, SerType(t, v).value + tail) == Ok((v, tail))
    decreases t, 0
  {
    match (t, v)
    case (Scalar(s), Num(n)) => S.RoundTrip(s, n, tail);
    case (Packet(ops), Struct(vs)) => OpsRoundTrip(ops, NO_NAMES, vs, tail);
    case (Frame(tag, tagName, variants), Tagged(n, i, vs)) =>
      OpsRoundTrip(variants[i].ops, FrameEnv(tag, tagName, n), vs, tail);
      FrameRoundTrip(t, v, SerOps(variants[i].ops, vs).value, tail);
    case (Capsule(header, _, _, variants, backend), Encapsulated(hs, i, vs)) =>
      var env := PayloadEnv(ExtendAll(NO_NAMES, header, hs));
      if backend.C? {
        PayloadRoundTrip(variants[i].ops, env, vs, tail);
      } else {
        OpsRoundTrip(variants[i].ops, env, vs, []);
        Assoc(SerOps(variants[i].ops, vs).value, [], []);
      }
      var body := SerOps(variants[i].ops, vs).value;
      OpsRoundTrip(header, NO_NAMES, hs, body + tail);
      CapsuleRoundTrip(t, v, SerOps(header, hs).value, body, tail);
  }

  lemma {:induction false} FrameParses(t: Type, v: Val, b: bytes, m: bytes, r: bytes)
    requires t.Frame? && v.Tagged? && v.alt == Select(t.variants, v.tag) < |t.variants|
    requires S.Parse(t.tag, b) == Ok((v.tag, m))
    requires ParseOps(t.variants[v.alt].ops, FrameEnv(t.tag, t.tagName, v.tag), m) == Ok((v.body, r))
    ensures ParseType(t, b) == Ok((v, r))
  {
  }

  lemma {:induction false} FrameRoundTrip(t: Type, v: Val, body: bytes, tail: bytes)
    requires t.Frame? && v.Tagged? && S.InRange(t.tag, v.tag) && v.alt == Select(t.variants, v.tag) < |t.variants|
    requires SerOps(t.variants[v.alt].ops, v.body) == Some(body)
    requires ParseOps(t.variants[v.alt].ops, FrameEnv(t.tag, t.tagName, v.tag), body + tail) == Ok((v.body, tail))
    ensures S.Serialize(t.tag, v.tag).Ok? && SerType(t, v) == Some(S.Serialize(t.tag, v.tag).value + body)
    ensures ParseType(t, S.Serialize(t.tag, v.tag).value + body + tail) == Ok((v, tail))
  {
    S.RoundTrip(t.tag, v.tag, body + tail);
    var e := S.Serialize(t.tag, v.tag).value;
    FrameSerializes(t, v, e, body);
    Assoc(e, body, tail);
    FrameParses(t, v, e + body + tail, body + tail, tail);
  }

  lemma {:induction false} FrameSerializes(t: Type, v: Val, e: bytes, body: bytes)
    requires t.Frame? && v.Tagged? && v.alt < |t.variants| && S.Serialize(t.tag, v.tag) == Ok(e)
    requires SerOps(t.variants[v.alt].ops, v.body) == Some(body)
    ensures SerType(t, v) == Some(e + body)
  {
  }

  /** The payload parse of either backend. */
  function Payload(t: Type, i: nat, env: Env, scope: bytes, rest: bytes): Result<(seq<Val>, bytes)>
    requires t.Capsule? && i < |t.variants|
  {
    if t.backend.C? then ParsePayload(t.variants[i].ops, env, scope, rest) else ParseOps(t.variants[i].ops, env, scope)
  }

  lemma {:induction false} CapsuleParses(t: Type, v: Val, b: bytes, r: bytes, scope: bytes, rest: bytes, tag: int, unused: bytes)
    requires t.Capsule? && v.Encapsulated? && v.alt == Select(t.variants, tag) < |t.variants|
    requires ParseOps(t.header, NO_NAMES, b) == Ok((v.header, r))
    requires var env := ExtendAll(NO_NAMES, t.header, v.header);
             && Take(Size(t.within, env), r) == Ok((scope, rest))
             && Eval(t.selector, env).Some? && tag == Eval(t.selector, env).value.n
             && Payload(t, v.alt, PayloadEnv(env), scope, rest) == Ok((v.body, unused))
    ensures ParseType(t, b) == if t.backend.C? && unused != [] then Err(TrailingData) else Ok((v, rest))
  {
  }

  lemma {:induction false} CapsuleRoundTrip(t: Type, v: Val, head: bytes, body: bytes, tail: bytes)
    requires t.Capsule? && v.Encapsulated? && v.alt < |t.variants|
    requires SerOps(t.header, v.header) == Some(head) && SerOps(t.variants[v.alt].ops, v.body) == Some(body)
    requires ParseOps(t.header, NO_NAMES, head + (body + tail)) == Ok((v.header, body + tail))
    requires var env := ExtendAll(NO_NAMES, t.header, v.header);
             && Size(t.within, env) == Some(|body|)
             && Eval(t.selector, env).Some? && v.alt == Select(t.variants, Eval(t.selector, env).value.n)
             && Payload(t, v.alt, PayloadEnv(env), body, tail) == Ok((v.body, []))
    ensures SerType(t, v) == Some(head + body)
    ensures ParseType(t, head + body + tail) == Ok((v, tail))
  {
    Assoc(head, body, tail);
    TakeAppend(body, tail);
    var tag := Eval(t.selector, ExtendAll(NO_NAMES, t.header, v.header)).value.n;
    CapsuleParses(t, v, head + body + tail, body + tail, body, tail, tag, []);
  }

  lemma {:induction false} ConsOps(ops: seq<Op>, env: Env, vs: seq<Val>, b: bytes, m: bytes, r: bytes)
    requires ops != [] && vs != [] && ParseOp(ops[0], env, b) == Ok((vs[0], m))
    requires ParseOps(ops[1..], Extend(env, ops[0], vs[0]), m) == Ok((vs[1..], r))
    ensures ParseOps(ops, env, b) == Ok((vs, r))
  {
    Rejoin(vs);
  }

  lemma {:induction false} ConsAll(t: Type, xs: seq<Val>, e: bytes, rest: bytes)
    requires xs != [] && SerType(t, xs[0]) == Some(e) && SerAll(t, xs[1..]) == Some(rest)
    ensures SerAll(t, xs) == Some(e + rest)
  {
  }

  lemma {:induction false} ConsCount(t: Type, xs: seq<Val>, b: bytes, m: bytes, r: bytes)
    requires xs != [] && ParseType(t, b) == Ok((xs[0], m)) && ParseCount(t, |xs| - 1, m) == Ok((xs[1..], r))
    ensures ParseCount(t, |xs|, b) == Ok((xs, r))
  {
    Rejoin(xs);
  }

  lemma {:induction false} OpsRoundTrip(ops: seq<Op>, env: Env, vs: seq<Val>, tail: bytes)
    requires FitsOps(ops, env, vs, |tail|)
    ensures SerOps(ops, vs).Some?
    ensures ParseOps(ops, env, SerOps(ops, vs).value + tail) == Ok((vs, tail))
    decreases ops, 0
  {
    if ops == [] {
      assert SerOps(ops, vs).value + tail == tail;
    } else {
      OpsRoundTrip(ops[1..], Extend(env, ops[0], vs[0]), vs[1..], tail);
      var rest := SerOps(ops[1..], vs[1..]).value;
      OpRoundTrip(ops[0], env, vs[0], rest + tail);
      var e := SerOp(ops[0], vs[0]).value;
      Assoc(e, rest, tail);
      ConsOps(ops, env, vs, e + rest + tail, rest + tail, tail);
    }
  }

  lemma {:induction false} OpRoundTrip(op: Op, env: Env, v: Val, tail: bytes)
    requires FitsOp(op, env, v, |tail|)
    ensures SerOp(op, v).Some?
    ensures ParseOp(op, env, SerOp(op, v).value + tail) == Ok((v, tail))
    decreases op, 0
  {
    match (op, v)
    case (Field(_, t), _) => TypeRoundTrip(t, v, tail);
    case (BitFields(_, g), Struct(vs)) => GroupRoundTrip(g, vs, tail);
    case (Later(_, _), Checked) => Assoc(tail, [], []);
    case (Raw(_, spec), Data(d)) => RawRoundTrip(spec, env, d, tail);
    case (When(_, _, t), Absent) => Assoc(tail, [], []);
    case (When(_, _, t), Present(x)) => TypeRoundTrip(t, x, tail);
    case (Array(_, t, _, _), Elems(xs)) => CountRoundTrip(t, xs, tail);
    case (Fill(_, t, within, max), Elems(xs)) =>
      FillRoundTrip(t, xs, max);
      var e := SerAll(t, xs).value;
      if within.Some? {
        TakeAppend(e, tail);
      } else {
        Assoc(e, [], []);
        assert tail == [];
      }
    case (Derived(_, _, _), Num(_)) => Assoc(tail, [], []);
    case (Require(_), Checked) => Assoc(tail, [], []);
  }

  // ----- the payload of a C capsule

  predicate NoLater(ops: seq<Op>) {
    forall i :: 0 <= i < |ops| ==> !ops[i].Later?
  }

  lemma {:induction false} NoLaterStep(ops: seq<Op>)
    requires ops != []
    ensures NoLater(ops) <==> !ops[0].Later? && NoLater(ops[1..])
  {
    assert forall i :: 0 < i < |ops| ==> ops[i] == ops[1..][i - 1];
  }

  lemma {:induction false} LastReadingIsFirst(names: seq<string>, g: Group, v: Val, ops: seq<Op>, ws: seq<Val>)
    requires NoLater(ops)
    ensures LastReading(names, g, v, ops, ws) == v
    decreases |ops|
  {
    if ops != [] && ws != [] {
      NoLaterStep(ops);
      LastReadingIsFirst(names, g, v, ops[1..], ws[1..]);
    }
  }

  /** Without further fields of a bit group nothing is read over. */
  lemma {:induction false} FinalIsRead(ops: seq<Op>, ws: seq<Val>)
    requires NoLater(ops) && |ops| == |ws|
    ensures Final(ops, ws) == ws
    decreases |ops|
  {
    if ops != [] {
      NoLaterStep(ops);
      FinalIsRead(ops[1..], ws[1..]);
      if ops[0].BitFields? {
        LastReadingIsFirst(ops[0].names, ops[0].group, ws[0], ops[1..], ws[1..]);
      }
      Rejoin(ws);
    }
  }

  lemma {:induction false} ConsPayload(ops: seq<Op>, env: Env, vs: seq<Val>, b: bytes, m: bytes, r: bytes, rest: bytes)
    requires ops != [] && vs != [] && ParsePayloadOp(ops[0], env, b, rest) == Ok((vs[0], m))
    requires RunPayload(ops[1..], Extend(env, ops[0], vs[0]), m, rest) == Ok((vs[1..], r))
    ensures RunPayload(ops, env, b, rest) == Ok((vs, r))
  {
    Rejoin(vs);
  }

  lemma {:induction false} PayloadRoundTrip(ops: seq<Op>, env: Env, vs: seq<Val>, rest: bytes)
    requires FitsPayload(ops, env, vs, |rest|)
    ensures SerOps(ops, vs).Some?
    ensures ParsePayload(ops, env, SerOps(ops, vs).value, rest) == Ok((vs, []))
    decreases ops, 1
  {
    RunRoundTrip(ops, env, vs, rest);
    FinalIsRead(ops, vs);
  }

  lemma {:induction false} RunRoundTrip(ops: seq<Op>, env: Env, vs: seq<Val>, rest: bytes)
    requires FitsPayload(ops, env, vs, |rest|)
    ensures |vs| == |ops| && NoLater(ops) && SerOps(ops, vs).Some?
    ensures RunPayload(ops, env, SerOps(ops, vs).value, rest) == Ok((vs, []))
    decreases ops, 0
  {
    if ops != [] {
      RunRoundTrip(ops[1..], Extend(env, ops[0], vs[0]), vs[1..], rest);
      var tail := SerOps(ops[1..], vs[1..]).value;
      PayloadOpRoundTrip(ops[0], env, vs[0], tail, rest);
      var e := SerOp(ops[0], vs[0]).value;
      ConsPayload(ops, env, vs, e + tail, tail, [], rest);
      NoLaterStep(ops);
    }
  }

  lemma {:induction false} TakeBehind(d: bytes, rest: bytes)
    requires |d| == |rest|
    ensures (d + rest)[..|rest|] == d
  {
  }

  lemma {:induction false} PayloadOpRoundTrip(op: Op, env: Env, v: Val, tail: bytes, rest: bytes)
    requires FitsPayloadOp(op, env, v, |tail|, |rest|)
    ensures !op.Later? && SerOp(op, v).Some?
    ensures ParsePayloadOp(op, env, SerOp(op, v).value + tail, rest) == Ok((v, tail))
    decreases op, 1
  {
    match op
    case Later(_, _) =>
    case Raw(_, LengthOrRemaining(f)) =>
      if env.Lookup(f) == Some(Missing) {
        Assoc(v.b, [], []);
        TakeBehind(v.b, rest);
      } else {
        OpRoundTrip(op, env, v, tail);
      }
    case Fill(_, _, None, _) => Assoc(tail, [], []);
    case _ => OpRoundTrip(op, env, v, tail);
  }

  lemma {:induction false} CountRoundTrip(t: Type, xs: seq<Val>, tail: bytes)
    requires FitsAll(t, xs, |tail|)
    ensures SerAll(t, xs).Some?
    ensures ParseCount(t, |xs|, SerAll(t, xs).value + tail) == Ok((xs, tail))
    decreases t, 1, xs
  {
    if xs == [] {
      assert SerAll(t, xs).value + tail == tail;
    } else {
      CountRoundTrip(t, xs[1..], tail);
      var rest := SerAll(t, xs[1..]).value;
      TypeRoundTrip(t, xs[0], rest + tail);
      var e := SerType(t, xs[0]).value;
      Assoc(e, rest, tail);
      ConsCount(t, xs, e + rest + tail, rest + tail, tail);
      ConsAll(t, xs, e, rest);
    }
  }

  lemma {:induction false} FillRoundTrip(t: Type, xs: seq<Val>, room: nat)
    requires FitsAll(t, xs, 0) && |xs| <= room
    requires NoneEmpty(t, xs)
    ensures SerAll(t, xs).Some?
    ensures ParseFill(t, room, SerAll(t, xs).value) == Ok(xs)
    decreases t, 1, xs
  {
    if xs != [] {
      FillRoundTrip(t, xs[1..], room - 1);
      var rest := SerAll(t, xs[1..]).value;
      TypeRoundTrip(t, xs[0], rest);
      var e := SerType(t, xs[0]).value;
      ConsAll(t, xs, e, rest);
      ConsFill(t, xs, room, e + rest, rest);
    }
  }

  lemma {:induction false} ConsFill(t: Type, xs: seq<Val>, room: nat, b: bytes, m: bytes)
    requires xs != [] && room > 0 && |b| > 0 && ParseType(t, b) == Ok((xs[0], m)) && ParseFill(t, room - 1, m) == Ok(xs[1..])
    ensures ParseFill(t, room, b) == Ok(xs)
  {
    Rejoin(xs);
  }
}

/** The property the fuzz harness samples: what is parsed can be serialized in no more bytes, and exactly
    when every scope is kept it parses again to the same value, using all of them. */
module Stability {
  import opened Bits
  import opened Bytes
  import opened Outcome
  import opened Expr
  import opened Codec
  import opened RoundTrip
  import opened Scopes
  import S = Scalars
  import BG = BitGroup

  // ----- what is parsed fits, and can be written

  /** How a value is written compared with what it was read from: whether every scope is kept, whether it
      is as long, whether it is the same, and whether the description makes sure that scopes are kept. */
  datatype Grade = Grade(kept: bool, keeps: bool, canonical: bool, stable: bool) {
    function And(g: Grade): Grade {
      Grade(kept && g.kept, keeps && g.keeps, canonical && g.canonical, stable && g.stable)
    }
  }

  const SAME: Grade := Grade(true, true, true, true)

  function TypeGrade(t: Type, v: Val): Grade {
    Grade(ScopesKept(t, v), KeepsLength(t), Canonical(t), Stable(t))
  }

  function OpsGrade(ops: seq<Op>, env: Env, vs: seq<Val>): Grade {
    Grade(OpsKept(ops, env, vs), OpsKeepLength(ops), OpsCanonical(ops), OpsStable(ops))
  }

  function OpGrade(op: Op, env: Env, v: Val): Grade {
    Grade(OpKept(op, env, v), OpKeepsLength(op), OpCanonical(op), OpStable(op))
  }

  function AllGrade(t: Type, xs: seq<Val>): Grade {
    Grade(AllKept(t, xs), KeepsLength(t), Canonical(t), Stable(t))
  }

  predicate Splits(b: bytes, used: bytes, r: bytes) {
    b == used + r
  }

  /** What is written for the part of the input that was used. */
  ghost predicate Rewrites(b: bytes, r: bytes, e: Option<bytes>, g: Grade) {
    exists used: bytes :: Splits(b, used, r) && RewritesAll(used, e, g)
  }

  /** No more bytes than were used; as many only if every scope is kept, and then not none for some. */
  predicate RewritesAll(used: bytes, e: Option<bytes>, g: Grade) {
    && e.Some? && |e.value| <= |used|
    && (|e.value| == |used| ==> g.kept)
    && (g.kept && used != [] ==> e.value != [])
    && (g.keeps ==> |e.value| == |used|)
    && (g.canonical ==> e.value == used)
    && (g.stable ==> g.kept)
  }

  lemma {:induction false} RewriteAs(b: bytes, used: bytes, r: bytes, e: Option<bytes>, g: Grade)
    requires b == used + r && RewritesAll(used, e, g)
    ensures Rewrites(b, r, e, g)
  {
    assert Splits(b, used, r);
  }

  lemma {:induction false} RewriteNothing(b: bytes, g: Grade)
    requires g.kept
    ensures Rewrites(b, b, Some([]), g)
  {
    RewriteAs(b, [], b, Some([]), g);
  }

  lemma {:induction false} RewriteThen(b: bytes, m: bytes, r: bytes, e: Option<bytes>, f: Option<bytes>, g: Grade, h: Grade)
    requires Rewrites(b, m, e, g) && Rewrites(m, r, f, h)
    ensures Rewrites(b, r, Append(e, f), g.And(h))
  {
    var u: bytes :| Splits(b, u, m) && RewritesAll(u, e, g);
    var u': bytes :| Splits(m, u', r) && RewritesAll(u', f, h);
    RewriteAs(b, u + u', r, Append(e, f), g.And(h));
  }

  lemma {:induction false} RewriteEnds(b: bytes, r: bytes, e: Option<bytes>, g: Grade)
    requires Rewrites(b, r, e, g)
    ensures |r| <= |b| && r == b[|b| - |r|..] && b == b[..|b| - |r|] + r
    ensures RewritesAll(b[..|b| - |r|], e, g)
  {
    var u: bytes :| Splits(b, u, r) && RewritesAll(u, e, g);
    assert b[..|b| - |r|] == u;
  }

  /** Less may be promised of the description. */
  lemma {:induction false} RewriteWeaker(b: bytes, r: bytes, e: Option<bytes>, g: Grade, h: Grade)
    requires Rewrites(b, r, e, g) && h.kept == g.kept
    requires (h.keeps ==> g.keeps) && (h.canonical ==> g.canonical) && (h.stable ==> g.stable)
    ensures Rewrites(b, r, e, h)
  {
    var u: bytes :| Splits(b, u, r) && RewritesAll(u, e, g);
    RewriteAs(b, u, r, e, h);
  }

  /** The scope inside the enclosing bytes, some of it unused. */
  function ScopeGrade(g: Grade, e: Option<bytes>, scope: bytes, unused: bytes): Grade {
    var all := g.keeps && unused == [];
    Grade(g.kept && Width(e) == |scope|, all, g.canonical && unused == [], all)
  }

  lemma {:induction false} ScopeRewrites(b: bytes, scope: bytes, unused: bytes, r: bytes, e: Option<bytes>, g: Grade)
    requires b == scope + r && Rewrites(scope, unused, e, g)
    ensures Rewrites(b, r, e, ScopeGrade(g, e, scope, unused))
    ensures Width(e) == |scope| ==> g.kept && unused == []
  {
    RewriteEnds(scope, unused, e, g);
    if unused == [] {
      assert scope[..|scope|] == scope;
    }
    RewriteAs(b, scope, r, e, ScopeGrade(g, e, scope, unused));
  }

  function ScalarGrade(s: S.Scalar): Grade {
    Grade(true, S.KeepsLength(s), S.Canonical(s), true)
  }

  lemma {:induction false} ScalarSound(s: S.Scalar, b: bytes)
    requires S.Parse(s, b).Ok?
    ensures var (n, r) := S.Parse(s, b).value;
            S.InRange(s, n) && S.Serialize(s, n).Ok?
            && Rewrites(b, r, Some(S.Serialize(s, n).value), ScalarGrade(s))
  {
    S.ParseSound(s, b);
    var (n, r) := S.Parse(s, b).value;
    S.RoundTrip(s, n, []);
    var used := b[..|b| - |r|];
    RewriteAs(b, used, r, Some(S.Serialize(s, n).value), ScalarGrade(s));
  }

  lemma {:induction false} TakeSound(n: Option<nat>, b: bytes)
    requires Take(n, b).Ok?
    ensures var (d, r) := Take(n, b).value; n == Some(|d|) && b == d + r && Rewrites(b, r, Some(d), SAME)
  {
    var (d, r) := Take(n, b).value;
    RewriteAs(b, d, r, Some(d), SAME);
  }

  lemma {:induction false} RawSound(spec: BytesSpec, env: Env, b: bytes)
    requires ParseRaw(spec, env, b).Ok?
    ensures var (v, r) := ParseRaw(spec, env, b).value;
            v.Data? && Rewrites(b, r, Some(v.b), SAME) && FitsRaw(spec, env, |v.b|, |r|)
  {
    var (v, r) := ParseRaw(spec, env, b).value;
    TakeParts(b, |v.b|);
    RewriteAs(b, v.b, r, Some(v.b), SAME);
  }

  lemma {:induction false} TakeParts(b: bytes, n: nat)
    requires n <= |b|
    ensures b[..n] + b[n..] == b && b + [] == b
  {
  }

  lemma {:induction false} GroupExact(g: Group, d: bytes, w: nat)
    requires |d| == ContainerBytes(g.totalBits) && g.totalBits == 8 * |d|
    requires w == if g.bigEndian then FromBE(d) else FromLE(d)
    ensures SerGroup(g, Nums(BG.Unpack(g.members, w))) == Some(d)
  {
    Pow256IsPow2(|d|);
    BG.UnpackPack(g, w);
    NatsOfNums(BG.Unpack(g.members, w));
    ToFromBE(d);
    ToFromLE(d);
  }

  function GroupGrade(g: Group): Grade {
    Grade(true, true, g.totalBits == 8 * ContainerBytes(g.totalBits), true)
  }

  lemma {:induction false} GroupSound(g: Group, b: bytes)
    requires ParseGroup(g, b).Ok?
    ensures var (v, r) := ParseGroup(g, b).value;
            && v.Struct? && Rewrites(b, r, SerGroup(g, v.vs), GroupGrade(g))
            && v.vs == Nums(NatsOf(v.vs)) && BG.Fits(g.members, NatsOf(v.vs))
  {
    var n := ContainerBytes(g.totalBits);
    TakeSound(Some(n), b);
    var (d, r) := Take(Some(n), b).value;
    var w := if g.bigEndian then FromBE(d) else FromLE(d);
    var ns := BG.Unpack(g.members, w);
    NatsOfNums(ns);
    BG.UnpackFits(g.members, w);
    if g.totalBits == 8 * n {
      GroupExact(g, d, w);
    }
    RewriteAs(b, d, r, SerGroup(g, Nums(ns)), GroupGrade(g));
  }

  lemma {:induction false} NatsOfNums(ns: seq<nat>)
    ensures NatsOf(Nums(ns)) == ns
  {
    if ns != [] {
      NatsOfNums(ns[1..]);
    }
  }


  /** The parse of a type rewrites the bytes used, and yields a value that fits if its scopes are kept. */
  ghost predicate TypeSound(t: Type, b: bytes, v: Val, r: bytes) {
    && Rewrites(b, r, SerType(t, v), TypeGrade(t, v))
    && (ScopesKept(t, v) ==> FitsType(t, v, |r|))
  }

  ghost predicate OpsSound(ops: seq<Op>, env: Env, b: bytes, vs: seq<Val>, r: bytes) {
    && Rewrites(b, r, SerOps(ops, vs), OpsGrade(ops, env, vs))
    && (OpsKept(ops, env, vs) ==> FitsOps(ops, env, vs, |r|))
  }

  ghost predicate OpSound(op: Op, env: Env, b: bytes, v: Val, r: bytes) {
    && Rewrites(b, r, SerOp(op, v), OpGrade(op, env, v))
    && (OpKept(op, env, v) ==> FitsOp(op, env, v, |r|))
  }

  ghost predicate AllSound(t: Type, b: bytes, xs: seq<Val>, r: bytes) {
    && Rewrites(b, r, SerAll(t, xs), AllGrade(t, xs))
    && (AllKept(t, xs) ==> FitsAll(t, xs, |r|))
  }

  lemma {:induction false} ParseTypeSound(t: Type, b: bytes)
    requires ParseType(t, b).Ok? && Contained(t)
    ensures TypeSound(t, b, ParseType(t, b).value.0, ParseType(t, b).value.1)
    decreases t, 1
  {
    match t
    case Scalar(s) => ScalarSound(s, b);
    case Packet(ops) => ParseOpsSound(ops, NO_NAMES, b);
    case Frame(tag, tagName, variants) =>
      var (n, r) := S.Parse(tag, b).value;
      var ops, env := variants[Select(variants, n)].ops, FrameEnv(tag, tagName, n);
      ParseOpsSound(ops, env, r);
      var (vs, r') := ParseOps(ops, env, r).value;
      FrameSound(t, b, n, r, vs, r');
    case Capsule(_, _, _, _, _) =>
      var (v, rest) := ParseType(t, b).value;
      var scope, unused := CapsuleReads(t, b);
      var k := CapsuleParts(t, b, v, rest, scope, unused);
      CapsuleSound(t, b, v, rest, scope, unused, k);
  }

  lemma {:induction false} FrameSound(t: Type, b: bytes, n: int, m: bytes, vs: seq<Val>, r: bytes)
    requires t.Frame? && S.Parse(t.tag, b) == Ok((n, m)) && Select(t.variants, n) < |t.variants|
    requires OpsSound(t.variants[Select(t.variants, n)].ops, FrameEnv(t.tag, t.tagName, n), m, vs, r)
    ensures TypeSound(t, b, Tagged(n, Select(t.variants, n), vs), r)
  {
    ScalarSound(t.tag, b);
    var ops, env := t.variants[Select(t.variants, n)].ops, FrameEnv(t.tag, t.tagName, n);
    var e := Some(S.Serialize(t.tag, n).value);
    RewriteThen(b, m, r, e, SerOps(ops, vs), ScalarGrade(t.tag), OpsGrade(ops, env, vs));
    var v := Tagged(n, Select(t.variants, n), vs);
    RewriteWeaker(b, r, SerType(t, v), ScalarGrade(t.tag).And(OpsGrade(ops, env, vs)), TypeGrade(t, v));
  }

  // ----- capsules

  /** The readings of a C payload stayed in its scope. */
  predicate PayloadInside(ops: seq<Op>, env: Env, b: bytes, rest: bytes) {
    NoLengthOrRemaining(ops) || rest == []
    || (NoLater(ops) && RunPayload(ops, env, b, rest).Ok? && NoOverrun(ops, env, RunPayload(ops, env, b, rest).value.0))
  }

  /** What is promised of a C payload, `k` being whether it fits. */
  function PayloadGrade(ops: seq<Op>, k: bool): Grade {
    Grade(k, Plain(ops) && OpsKeepLength(ops), Plain(ops) && OpsCanonical(ops), false)
  }

  ghost predicate PayloadSound(ops: seq<Op>, env: Env, b: bytes, vs: seq<Val>, rest: bytes, k: bool) {
    && Rewrites(b, [], SerOps(ops, vs), PayloadGrade(ops, k))
    && (k ==> NoLater(ops) && OpsKept(ops, env, vs) && FitsPayload(ops, env, vs, |rest|))
  }

  /** The grade of a capsule's payload in its scope. */
  function PartGrade(t: Type, i: nat, env: Env, vs: seq<Val>, k: bool): Grade
    requires t.Capsule? && i < |t.variants|
  {
    if t.backend.C? then PayloadGrade(t.variants[i].ops, k) else OpsGrade(t.variants[i].ops, env, vs)
  }

  /** The header and the payload of a parsed capsule, each sound in its own scope. */
  ghost predicate PartsSound(t: Type, b: bytes, v: Val, rest: bytes, scope: bytes, unused: bytes, k: bool)
    requires t.Capsule? && v.Encapsulated?
  {
    var env := ExtendAll(NO_NAMES, t.header, v.header);
    && v.alt < |t.variants|
    && OpsSound(t.header, NO_NAMES, b, v.header, scope + rest)
    && Size(t.within, env) == Some(|scope|)
    && Eval(t.selector, env).Some? && v.alt == Select(t.variants, Eval(t.selector, env).value.n)
    && (if t.backend.C? then unused == [] && PayloadSound(t.variants[v.alt].ops, PayloadEnv(env), scope, v.body, rest, k)
        else OpsSound(t.variants[v.alt].ops, PayloadEnv(env), scope, v.body, unused))
  }

  /** How the bytes of a parsed capsule were read. */
  ghost predicate Reads(t: Type, b: bytes, v: Val, rest: bytes, scope: bytes, unused: bytes)
    requires t.Capsule? && v.Encapsulated?
  {
    var env := ExtendAll(NO_NAMES, t.header, v.header);
    && v.alt < |t.variants|
    && ParseOps(t.header, NO_NAMES, b) == Ok((v.header, scope + rest))
    && Size(t.within, env) == Some(|scope|)
    && Eval(t.selector, env).Some? && v.alt == Select(t.variants, Eval(t.selector, env).value.n)
    && Payload(t, v.alt, PayloadEnv(env), scope, rest) == Ok((v.body, unused))
    && (t.backend.C? ==> unused == [])
  }

  lemma {:induction false} CapsuleReads(t: Type, b: bytes) returns (scope: bytes, unused: bytes)
    requires t.Capsule? && ParseType(t, b).Ok?
    ensures ParseType(t, b).value.0.Encapsulated?
    ensures Reads(t, b, ParseType(t, b).value.0, ParseType(t, b).value.1, scope, unused)
  {
    var (hs, r) := ParseOps(t.header, NO_NAMES, b).value;
    var env := ExtendAll(NO_NAMES, t.header, hs);
    var i := Select(t.variants, Eval(t.selector, env).value.n);
    TakeSound(Size(t.within, env), r);
    var rest;
    scope, rest := Take(Size(t.within, env), r).value.0, Take(Size(t.within, env), r).value.1;
    unused := Payload(t, i, PayloadEnv(env), scope, rest).value.1;
  }

  predicate PartsContained(t: Type)
    requires t.Capsule?
  {
    OpsContained(t.header) && forall i :: 0 <= i < |t.variants| ==> OpsContained(t.variants[i].ops)
  }

  lemma {:induction false} CapsuleParts(t: Type, b: bytes, v: Val, rest: bytes, scope: bytes, unused: bytes) returns (k: bool)
    requires t.Capsule? && v.Encapsulated? && Reads(t, b, v, rest, scope, unused)
    requires PartsContained(t)
    requires t.backend.C? ==> PayloadInside(t.variants[v.alt].ops, PayloadEnv(ExtendAll(NO_NAMES, t.header, v.header)), scope, rest)
    ensures PartsSound(t, b, v, rest, scope, unused, k)
    decreases t, 0
  {
    ParseOpsSound(t.header, NO_NAMES, b);
    var env := PayloadEnv(ExtendAll(NO_NAMES, t.header, v.header));
    if t.backend.C? {
      k := ParsePayloadSound(t.variants[v.alt].ops, env, scope, rest);
    } else {
      k := false;
      ParseOpsSound(t.variants[v.alt].ops, env, scope);
    }
  }

  lemma {:induction false} CapsuleFits(t: Type, v: Val, env: Env, after: nat)
    requires t.Capsule? && v.Encapsulated? && v.alt < |t.variants| && env == ExtendAll(NO_NAMES, t.header, v.header)
    requires FitsOps(t.header, NO_NAMES, v.header, Width(SerOps(t.variants[v.alt].ops, v.body)) + after)
    requires Size(t.within, env) == Some(Width(SerOps(t.variants[v.alt].ops, v.body)))
    requires Eval(t.selector, env).Some? && v.alt == Select(t.variants, Eval(t.selector, env).value.n)
    requires if t.backend.C? then FitsPayload(t.variants[v.alt].ops, PayloadEnv(env), v.body, after)
             else FitsOps(t.variants[v.alt].ops, PayloadEnv(env), v.body, 0)
    ensures FitsType(t, v, after)
  {
  }

  lemma {:induction false} CapsuleKept(t: Type, v: Val)
    requires t.Capsule? && v.Encapsulated? && v.alt < |t.variants|
    ensures var env := ExtendAll(NO_NAMES, t.header, v.header);
            ScopesKept(t, v) <==>
            && OpsKept(t.header, NO_NAMES, v.header)
            && Size(t.within, env) == Some(Width(SerOps(t.variants[v.alt].ops, v.body)))
            && OpsKept(t.variants[v.alt].ops, PayloadEnv(env), v.body)
  {
  }

  lemma {:induction false} CapsuleGrade(t: Type, v: Val, scope: bytes, unused: bytes, k: bool)
    requires t.Capsule? && v.Encapsulated? && v.alt < |t.variants|
    requires Size(t.within, ExtendAll(NO_NAMES, t.header, v.header)) == Some(|scope|)
    requires t.backend.C? ==> unused == []
    requires var e := SerOps(t.variants[v.alt].ops, v.body);
             var env := PayloadEnv(ExtendAll(NO_NAMES, t.header, v.header));
             Width(e) == |scope| ==> (PartGrade(t, v.alt, env, v.body, k).kept <==> OpsKept(t.variants[v.alt].ops, env, v.body))
    ensures var e := SerOps(t.variants[v.alt].ops, v.body);
            var env := PayloadEnv(ExtendAll(NO_NAMES, t.header, v.header));
            var g := OpsGrade(t.header, NO_NAMES, v.header).And(ScopeGrade(PartGrade(t, v.alt, env, v.body, k), e, scope, unused));
            && g.kept == ScopesKept(t, v)
            && (KeepsLength(t) ==> g.keeps) && (Canonical(t) ==> g.canonical) && (Stable(t) ==> g.stable)
  {
    CapsuleKept(t, v);
  }

  lemma {:induction false} CapsuleSound(t: Type, b: bytes, v: Val, rest: bytes, scope: bytes, unused: bytes, k: bool)
    requires t.Capsule? && v.Encapsulated? && PartsSound(t, b, v, rest, scope, unused, k)
    ensures TypeSound(t, b, v, rest)
  {
    var ops := t.variants[v.alt].ops;
    var env := ExtendAll(NO_NAMES, t.header, v.header);
    var e := SerOps(ops, v.body);
    var g := PartGrade(t, v.alt, PayloadEnv(env), v.body, k);
    ScopeRewrites(scope + rest, scope, unused, rest, e, g);
    var h := OpsGrade(t.header, NO_NAMES, v.header);
    RewriteThen(b, scope + rest, rest, SerOps(t.header, v.header), e, h, ScopeGrade(g, e, scope, unused));
    CapsuleGrade(t, v, scope, unused, k);
    RewriteWeaker(b, rest, SerType(t, v), h.And(ScopeGrade(g, e, scope, unused)), TypeGrade(t, v));
    CapsuleKept(t, v);
    if ScopesKept(t, v) {
      CapsuleFits(t, v, env, |rest|);
    }
  }

  // ----- the payload of a C capsule

  /** Either the payload is read once and fits as soon as it is written as long, or it is written shorter. */
  lemma {:induction false} ParsePayloadSound(ops: seq<Op>, env: Env, b: bytes, rest: bytes) returns (k: bool)
    requires ParsePayload(ops, env, b, rest).Ok? && ParsePayload(ops, env, b, rest).value.1 == []
    requires OpsContained(ops) && PayloadInside(ops, env, b, rest)
    ensures PayloadSound(ops, env, b, ParsePayload(ops, env, b, rest).value.0, rest, k)
    decreases ops, 2
  {
    var ws := RunPayload(ops, env, b, rest).value.0;
    if rest == [] {
      NothingBehind(ops, env, b);
    } else if NoLengthOrRemaining(ops) {
      NothingToOverrun(ops, env, ws);
    }
    if NoLater(ops) {
      k := RunSound(ops, env, b, rest);
      RunLength(ops, env, b, rest);
      FinalIsRead(ops, ws);
    } else {
      k := false;
      RunWidth(ops, env, b, rest);
      RewriteAs(b, b, [], SerOps(ops, Final(ops, ws)), PayloadGrade(ops, false));
    }
  }

  lemma {:induction false} RunLength(ops: seq<Op>, env: Env, b: bytes, rest: bytes)
    requires RunPayload(ops, env, b, rest).Ok?
    ensures |RunPayload(ops, env, b, rest).value.0| == |ops|
    decreases |ops|
  {
    if ops != [] {
      var (w, m) := ParsePayloadOp(ops[0], env, b, rest).value;
      RunLength(ops[1..], Extend(env, ops[0], w), m, rest);
    }
  }

  /** With nothing behind the scope, bytes of an absent length are none. */
  lemma {:induction false} NothingBehind(ops: seq<Op>, env: Env, b: bytes)
    requires RunPayload(ops, env, b, []).Ok?
    ensures NoOverrun(ops, env, RunPayload(ops, env, b, []).value.0)
    decreases |ops|
  {
    if ops != [] {
      var (w, m) := ParsePayloadOp(ops[0], env, b, []).value;
      var env' := Extend(env, ops[0], w);
      NothingBehind(ops[1..], env', m);
      var ws := RunPayload(ops[1..], env', m, []).value.0;
      assert ([w] + ws)[1..] == ws;
    }
  }

  function OnceGrade(op: Op, k: bool): Grade {
    var once := !op.Later? && !IsLengthOrRemaining(op);
    Grade(k, once && OpKeepsLength(op), once && OpCanonical(op), false)
  }

  ghost predicate PayloadOpSound(op: Op, env: Env, b: bytes, w: Val, m: bytes, rest: bytes, k: bool) {
    && Rewrites(b, m, SerOp(op, w), OnceGrade(op, k))
    && (k ==> OpKept(op, env, w) && FitsPayloadOp(op, env, w, |m|, |rest|))
  }

  lemma {:induction false} ParsePayloadOpSound(op: Op, env: Env, b: bytes, rest: bytes) returns (k: bool)
    requires ParsePayloadOp(op, env, b, rest).Ok? && OpContained(op) && !op.Later?
    requires OpInside(op, env, ParsePayloadOp(op, env, b, rest).value.0)
    ensures PayloadOpSound(op, env, b, ParsePayloadOp(op, env, b, rest).value.0, ParsePayloadOp(op, env, b, rest).value.1, rest, k)
    decreases op, 1
  {
    var (w, m) := ParsePayloadOp(op, env, b, rest).value;
    if IsLengthOrRemaining(op) && env.Lookup(op.spec.field) == Some(Missing) {
      k := b == [];
      NothingTaken(op, env, b, rest);
    } else if op.Fill? && op.within.None? {
      k := true;
      NoneFilled(op, env, b);
    } else {
      ParseOpSound(op, env, b);
      k := OpKept(op, env, w);
      RewriteWeaker(b, m, SerOp(op, w), OpGrade(op, env, w), OnceGrade(op, k));
    }
  }

  lemma {:induction false} NoneFilled(op: Op, env: Env, b: bytes)
    requires op.Fill? && op.within.None?
    ensures PayloadOpSound(op, env, b, Elems([]), b, [], true)
  {
    assert SerOp(op, Elems([])) == SerAll(op.t, []) == Some([]);
    assert OpKept(op, env, Elems([])) by {
      assert AllKept(op.t, []);
    }
    RewriteNothing(b, OnceGrade(op, true));
  }

  lemma {:induction false} NothingTaken(op: Op, env: Env, b: bytes, rest: bytes)
    requires IsLengthOrRemaining(op) && env.Lookup(op.spec.field) == Some(Missing)
    requires ParsePayloadOp(op, env, b, rest) == Ok((Data([]), []))
    ensures PayloadOpSound(op, env, b, Data([]), [], rest, b == [])
  {
    assert |(b + rest)[..|rest|]| == |rest|;
    Assoc(b, [], []);
    RewriteAs(b, b, [], Some([]), OnceGrade(op, b == []));
  }

  lemma {:induction false} RunSound(ops: seq<Op>, env: Env, b: bytes, rest: bytes) returns (k: bool)
    requires RunPayload(ops, env, b, rest).Ok? && RunPayload(ops, env, b, rest).value.1 == []
    requires OpsContained(ops) && NoLater(ops) && NoOverrun(ops, env, RunPayload(ops, env, b, rest).value.0)
    ensures PayloadSound(ops, env, b, RunPayload(ops, env, b, rest).value.0, rest, k)
    decreases ops, 0
  {
    if ops == [] {
      k := true;
      RewriteNothing(b, PayloadGrade(ops, true));
    } else {
      var (w, m) := ParsePayloadOp(ops[0], env, b, rest).value;
      var env' := Extend(env, ops[0], w);
      var ws := RunPayload(ops[1..], env', m, rest).value.0;
      ConsSer(ops, w, ws);
      OpsStep(ops);
      NoLaterStep(ops);
      var k1 := ParsePayloadOpSound(ops[0], env, b, rest);
      var k2 := RunSound(ops[1..], env', m, rest);
      k := k1 && k2;
      RunStep(ops, env, b, w, m, ws, rest, k1, k2);
    }
  }

  lemma {:induction false} RunStep(ops: seq<Op>, env: Env, b: bytes, w: Val, m: bytes, ws: seq<Val>, rest: bytes, k1: bool, k2: bool)
    requires ops != [] && !ops[0].Later? && NoLater(ops[1..]) && OpContained(ops[0])
    requires PayloadOpSound(ops[0], env, b, w, m, rest, k1)
    requires PayloadSound(ops[1..], Extend(env, ops[0], w), m, ws, rest, k2)
    ensures PayloadSound(ops, env, b, [w] + ws, rest, k1 && k2)
  {
    var g, h := OnceGrade(ops[0], k1), PayloadGrade(ops[1..], k2);
    RewriteThen(b, m, [], SerOp(ops[0], w), SerOps(ops[1..], ws), g, h);
    OpsStep(ops);
    NoLaterStep(ops);
    ConsSer(ops, w, ws);
    RewriteWeaker(b, [], SerOps(ops, [w] + ws), g.And(h), PayloadGrade(ops, k1 && k2));
    RewriteEnds(m, [], SerOps(ops[1..], ws), h);
    if k1 && k2 {
      FitsPayloadOpAfter(ops[0], env, w, |m|, Width(SerOps(ops[1..], ws)), |rest|);
      PayloadFitsFirst(ops, env, [w] + ws, |rest|);
    }
  }

  lemma {:induction false} FitsPayloadOpAfter(op: Op, env: Env, v: Val, a: nat, b: nat, outer: nat)
    requires FitsPayloadOp(op, env, v, a, outer) && b <= a && OpContained(op)
    ensures FitsPayloadOp(op, env, v, b, outer)
  {
    match op
    case Raw(_, LengthOrRemaining(f)) =>
    case Fill(_, _, None, _) =>
    case Later(_, _) =>
    case _ => FitsOpMono(op, env, v, a, b);
  }

  // ----- groups read again

  predicate IsReading(g: Group, v: Val) {
    v.Struct? && |v.vs| == |g.members|
  }

  predicate Shaped(ops: seq<Op>, ws: seq<Val>) {
    |ws| == |ops| && forall i :: 0 <= i < |ops| && ops[i].Later? ==> IsReading(ops[i].group, ws[i])
  }

  lemma {:induction false} LastReadingShape(names: seq<string>, g: Group, v: Val, ops: seq<Op>, ws: seq<Val>)
    requires IsReading(g, v) && Shaped(ops, ws)
    ensures IsReading(g, LastReading(names, g, v, ops, ws))
    decreases |ops|
  {
    if ops != [] {
      LastReadingShape(names, g, if ops[0] == Later(names, g) then ws[0] else v, ops[1..], ws[1..]);
    }
  }

  lemma {:induction false} ShapedStep(ops: seq<Op>, w: Val, ws: seq<Val>)
    requires ops != [] && Shaped(ops[1..], ws) && (ops[0].Later? ==> IsReading(ops[0].group, w))
    ensures Shaped(ops, [w] + ws)
  {
    assert forall i :: 0 < i < |ops| ==> ops[i] == ops[1..][i - 1] && ([w] + ws)[i] == ws[i - 1];
  }

  /** What is written for one op of the struct after all readings. */
  lemma {:induction false} FinalWidth(ops: seq<Op>, w: Val, ws: seq<Val>)
    requires ops != [] && Shaped(ops[1..], ws) && (if ops[0].Later? then IsReading(ops[0].group, w) else SerOp(ops[0], w).Some?)
    ensures Final(ops, [w] + ws) != [] && Final(ops, [w] + ws)[1..] == Final(ops[1..], ws)
    ensures SerOp(ops[0], Final(ops, [w] + ws)[0]).Some?
    ensures Width(SerOp(ops[0], Final(ops, [w] + ws)[0])) == if ops[0].Later? then 0 else Width(SerOp(ops[0], w))
  {
    assert ([w] + ws)[1..] == ws;
    if ops[0].BitFields? {
      LastReadingShape(ops[0].names, ops[0].group, w, ops[1..], ws);
    }
  }

  /** A further field of a group uses the group's bytes once more, and is written in none. */
  lemma {:induction false} RunWidth(ops: seq<Op>, env: Env, b: bytes, rest: bytes)
    requires RunPayload(ops, env, b, rest).Ok? && OpsContained(ops)
    ensures var (ws, r) := RunPayload(ops, env, b, rest).value;
            var e := SerOps(ops, Final(ops, ws));
            && Shaped(ops, ws) && e.Some?
            && (NoLengthOrRemaining(ops) || rest == [] ==>
                Width(e) + |r| <= |b| && (!NoLater(ops) ==> Width(e) + |r| < |b|))
    decreases ops, 0
  {
    if ops != [] {
      var (w, m) := ParsePayloadOp(ops[0], env, b, rest).value;
      var env' := Extend(env, ops[0], w);
      var (ws, r) := RunPayload(ops[1..], env', m, rest).value;
      OpsStep(ops);
      NoLaterStep(ops);
      RunWidth(ops[1..], env', m, rest);
      PayloadOpWidth(ops[0], env, b, rest);
      ShapedStep(ops, w, ws);
      FinalWidth(ops, w, ws);
    }
  }

  lemma {:induction false} PayloadOpWidth(op: Op, env: Env, b: bytes, rest: bytes)
    requires ParsePayloadOp(op, env, b, rest).Ok? && OpContained(op)
    ensures var (w, m) := ParsePayloadOp(op, env, b, rest).value;
            if op.Later? then IsReading(op.group, w) && |m| < |b|
            else SerOp(op, w).Some? && (!IsLengthOrRemaining(op) || rest == [] ==> Width(SerOp(op, w)) + |m| <= |b|)
    decreases op, 2
  {
    var (w, m) := ParsePayloadOp(op, env, b, rest).value;
    if !op.Later? && (!IsLengthOrRemaining(op) || rest == []) {
      var k := ParsePayloadOpSound(op, env, b, rest);
      RewriteEnds(b, m, SerOp(op, w), OnceGrade(op, k));
    }
  }

  // ----- arrays and item lists

  lemma {:induction false} FitsAllCons(t: Type, x: Val, a: nat, xs: seq<Val>, after: nat)
    requires FitsType(t, x, a) && FitsAll(t, xs, after) && Width(SerAll(t, xs)) + after <= a && Contained(t)
    ensures FitsAll(t, [x] + xs, after)
  {
    FitsTypeMono(t, x, a, Width(SerAll(t, xs)) + after);
    assert ([x] + xs)[1..] == xs;
  }

  lemma {:induction false} SerAllCons(t: Type, x: Val, xs: seq<Val>)
    ensures SerAll(t, [x] + xs) == Append(SerType(t, x), SerAll(t, xs))
    ensures AllKept(t, [x] + xs) <==> ScopesKept(t, x) && AllKept(t, xs)
  {
    assert ([x] + xs)[1..] == xs;
  }

  lemma {:induction false} AllSoundNothing(t: Type, b: bytes)
    ensures AllSound(t, b, [], b)
  {
    RewriteNothing(b, AllGrade(t, []));
  }

  lemma {:induction false} AllSoundStep(t: Type, b: bytes, x: Val, m: bytes, xs: seq<Val>, r: bytes)
    requires TypeSound(t, b, x, m) && AllSound(t, m, xs, r) && Contained(t)
    ensures AllSound(t, b, [x] + xs, r)
  {
    RewriteThen(b, m, r, SerType(t, x), SerAll(t, xs), TypeGrade(t, x), AllGrade(t, xs));
    RewriteEnds(m, r, SerAll(t, xs), AllGrade(t, xs));
    SerAllCons(t, x, xs);
    if AllKept(t, [x] + xs) {
      FitsAllCons(t, x, |m|, xs, |r|);
    }
  }

  lemma {:induction false} ParseOpsSound(ops: seq<Op>, env: Env, b: bytes)
    requires ParseOps(ops, env, b).Ok? && OpsContained(ops)
    ensures OpsSound(ops, env, b, ParseOps(ops, env, b).value.0, ParseOps(ops, env, b).value.1)
    decreases ops, 0
  {
    if ops == [] {
      RewriteNothing(b, OpsGrade(ops, env, []));
    } else {
      OpsStep(ops);
      ParseOpSound(ops[0], env, b);
      var (v, m) := ParseOp(ops[0], env, b).value;
      var env' := Extend(env, ops[0], v);
      ParseOpsSound(ops[1..], env', m);
      var (vs, r) := ParseOps(ops[1..], env', m).value;
      OpsSoundStep(ops, env, b, v, m, vs, r);
    }
  }

  lemma {:induction false} OpsSoundStep(ops: seq<Op>, env: Env, b: bytes, v: Val, m: bytes, vs: seq<Val>, r: bytes)
    requires ops != [] && OpContained(ops[0])
    requires OpSound(ops[0], env, b, v, m) && OpsSound(ops[1..], Extend(env, ops[0], v), m, vs, r)
    ensures OpsSound(ops, env, b, [v] + vs, r)
  {
    var g, h := OpGrade(ops[0], env, v), OpsGrade(ops[1..], Extend(env, ops[0], v), vs);
    RewriteThen(b, m, r, SerOp(ops[0], v), SerOps(ops[1..], vs), g, h);
    OpsGradeStep(ops, env, v, vs);
    RewriteEnds(m, r, SerOps(ops[1..], vs), h);
    if OpsKept(ops, env, [v] + vs) {
      OpsFitStep(ops, env, v, |m|, vs, |r|);
    }
  }

  lemma {:induction false} OpsGradeStep(ops: seq<Op>, env: Env, v: Val, vs: seq<Val>)
    requires ops != []
    ensures OpsGrade(ops, env, [v] + vs) == OpGrade(ops[0], env, v).And(OpsGrade(ops[1..], Extend(env, ops[0], v), vs))
    ensures SerOps(ops, [v] + vs) == Append(SerOp(ops[0], v), SerOps(ops[1..], vs))
  {
    OpsStep(ops);
    ConsSer(ops, v, vs);
  }

  lemma {:induction false} OpsFitStep(ops: seq<Op>, env: Env, v: Val, a: nat, vs: seq<Val>, after: nat)
    requires ops != [] && FitsOp(ops[0], env, v, a) && Width(SerOps(ops[1..], vs)) + after <= a && OpContained(ops[0])
    requires FitsOps(ops[1..], Extend(env, ops[0], v), vs, after)
    ensures FitsOps(ops, env, [v] + vs, after)
  {
    FitsOpMono(ops[0], env, v, a, Width(SerOps(ops[1..], vs)) + after);
    ConsSer(ops, v, vs);
    FitsFirst(ops, env, [v] + vs, after);
  }

  lemma {:induction false} ConsSer(ops: seq<Op>, v: Val, vs: seq<Val>)
    requires ops != []
    ensures ([v] + vs)[0] == v && ([v] + vs)[1..] == vs
    ensures SerOps(ops, [v] + vs) == Append(SerOp(ops[0], v), SerOps(ops[1..], vs))
  {
    assert ([v] + vs)[1..] == vs;
  }

  lemma {:induction false} WhenSound(op: Op, env: Env, b: bytes, x: Val, r: bytes)
    requires op.When? && Truth(op.cond, env) == Some(true) && TypeSound(op.t, b, x, r)
    ensures OpSound(op, env, b, Present(x), r)
  {
  }

  lemma {:induction false} WithoutBytesSound(op: Op, env: Env, b: bytes, v: Val)
    requires SerOp(op, v) == Some([]) && OpKept(op, env, v) && FitsOp(op, env, v, |b|)
    ensures OpSound(op, env, b, v, b)
  {
    RewriteNothing(b, OpGrade(op, env, v));
  }

  lemma {:induction false} ArraySound(op: Op, env: Env, b: bytes, xs: seq<Val>, r: bytes)
    requires op.Array? && Count(op.count, env) == Some(|xs|) && |xs| <= op.max && AllSound(op.t, b, xs, r)
    ensures OpSound(op, env, b, Elems(xs), r)
  {
  }

  lemma {:induction false} FillSound(op: Op, env: Env, b: bytes, scope: bytes, xs: seq<Val>, r: bytes)
    requires op.Fill? && b == scope + r
    requires if op.within.Some? then Size(op.within.value, env) == Some(|scope|) else r == []
    requires |xs| <= op.max && (AllKept(op.t, xs) ==> NoneEmpty(op.t, xs))
    requires AllSound(op.t, scope, xs, [])
    ensures OpSound(op, env, b, Elems(xs), r)
  {
    if op.within.Some? {
      ScopeRewrites(b, scope, [], r, SerAll(op.t, xs), AllGrade(op.t, xs));
      RewriteWeaker(b, r, SerAll(op.t, xs), ScopeGrade(AllGrade(op.t, xs), SerAll(op.t, xs), scope, []), OpGrade(op, env, Elems(xs)));
    } else {
      Assoc(scope, [], []);
    }
  }

  lemma {:induction false} ParseFillParts(op: Op, env: Env, b: bytes) returns (scope: bytes, xs: seq<Val>, r: bytes)
    requires op.Fill? && ParseOp(op, env, b).Ok?
    ensures if op.within.Some? then Size(op.within.value, env) == Some(|scope|) else r == []
    ensures b == scope + r && ParseFill(op.t, op.max, scope) == Ok(xs) && ParseOp(op, env, b) == Ok((Elems(xs), r))
  {
    scope, r := b, [];
    if op.within.Some? {
      TakeSound(Size(op.within.value, env), b);
      scope, r := Take(Size(op.within.value, env), b).value.0, Take(Size(op.within.value, env), b).value.1;
    }
    xs := ParseFill(op.t, op.max, scope).value;
  }

  lemma {:induction false} ParseOpSound(op: Op, env: Env, b: bytes)
    requires ParseOp(op, env, b).Ok? && OpContained(op)
    ensures OpSound(op, env, b, ParseOp(op, env, b).value.0, ParseOp(op, env, b).value.1)
    decreases op, 0
  {
    match op
    case Field(_, t) => ParseTypeSound(t, b);
    case BitFields(_, g) => GroupSound(g, b);
    case Later(_, _) => WithoutBytesSound(op, env, b, Checked);
    case Raw(_, spec) => RawSound(spec, env, b);
    case When(_, cond, t) =>
      if Truth(cond, env).value {
        ParseTypeSound(t, b);
        WhenSound(op, env, b, ParseType(t, b).value.0, ParseType(t, b).value.1);
      } else {
        WithoutBytesSound(op, env, b, Absent);
      }
    case Array(_, t, count, _) =>
      var n := Count(count, env).value;
      ParseCountSound(t, n, b);
      ArraySound(op, env, b, ParseCount(t, n, b).value.0, ParseCount(t, n, b).value.1);
    case Fill(_, t, _, max) =>
      var scope, xs, r := ParseFillParts(op, env, b);
      ParseFillSound(t, max, scope);
      FillSound(op, env, b, scope, xs, r);
    case Derived(_, _, _) => WithoutBytesSound(op, env, b, ParseOp(op, env, b).value.0);
    case Require(_) => WithoutBytesSound(op, env, b, Checked);
  }

  lemma {:induction false} ParseCountSound(t: Type, n: nat, b: bytes)
    requires ParseCount(t, n, b).Ok? && Contained(t)
    ensures var (xs, r) := ParseCount(t, n, b).value;
            |xs| == n && AllSound(t, b, xs, r)
    decreases t, 2, n
  {
    if n == 0 {
      AllSoundNothing(t, b);
    } else {
      ParseTypeSound(t, b);
      var (x, m) := ParseType(t, b).value;
      ParseCountSound(t, n - 1, m);
      var (xs, r) := ParseCount(t, n - 1, m).value;
      AllSoundStep(t, b, x, m, xs, r);
    }
  }

  /** An element that uses no input would be parsed again until the array is full. */
  lemma {:induction false} FillProgress(t: Type, room: nat, b: bytes)
    requires b != [] && ParseType(t, b).Ok? && ParseType(t, b).value.1 == b
    ensures ParseFill(t, room, b).Err?
  {
    if room != 0 {
      FillProgress(t, room - 1, b);
    }
  }

  lemma {:induction false} ElementUses(t: Type, b: bytes, x: Val, m: bytes)
    requires TypeSound(t, b, x, m)
    ensures m != b && ScopesKept(t, x) ==> Width(SerType(t, x)) > 0
  {
    RewriteEnds(b, m, SerType(t, x), TypeGrade(t, x));
  }

  lemma {:induction false} ParseFillSound(t: Type, room: nat, b: bytes)
    requires ParseFill(t, room, b).Ok? && Contained(t)
    ensures var xs := ParseFill(t, room, b).value;
            |xs| <= room && AllSound(t, b, xs, []) && (AllKept(t, xs) ==> NoneEmpty(t, xs))
    decreases t, 2, room
  {
    if b == [] {
      AllSoundNothing(t, b);
    } else {
      ParseTypeSound(t, b);
      var (x, m) := ParseType(t, b).value;
      ElementUses(t, b, x, m);
      if m == b {
        FillProgress(t, room, b);
      }
      ParseFillSound(t, room - 1, m);
      var xs := ParseFill(t, room - 1, m).value;
      AllSoundStep(t, b, x, m, xs, []);
      NoneEmptyStep(t, x, xs);
    }
  }

  lemma {:induction false} NoneEmptyStep(t: Type, x: Val, xs: seq<Val>)
    requires ScopesKept(t, x) ==> Width(SerType(t, x)) > 0
    requires AllKept(t, xs) ==> NoneEmpty(t, xs)
    ensures AllKept(t, [x] + xs) ==> NoneEmpty(t, [x] + xs)
  {
    assert ([x] + xs)[1..] == xs;
  }

  // ----- the main results

  /** Parse, serialize, re-parse gives the value back, on every input, exactly when every scope is kept. */
  lemma {:induction false} StableIff(t: Type, b: bytes)
    requires Contained(t) && ParseType(t, b).Ok?
    ensures var (v, r) := ParseType(t, b).value;
            && |r| <= |b| && SerType(t, v).Some?
            && |SerType(t, v).value| <= |b| - |r|
            && (ParseType(t, SerType(t, v).value) == Ok((v, [])) <==> ScopesKept(t, v))
  {
    ParseTypeSound(t, b);
    var (v, r) := ParseType(t, b).value;
    RewriteEnds(b, r, SerType(t, v), TypeGrade(t, v));
    var e := SerType(t, v).value;
    if ScopesKept(t, v) {
      FitsTypeMono(t, v, |r|, 0);
      TypeRoundTrip(t, v, []);
      Assoc(e, [], []);
    }
    if ParseType(t, e) == Ok((v, [])) {
      ParseTypeSound(t, e);
      RewriteEnds(e, [], SerType(t, v), TypeGrade(t, v));
    }
  }

  /** For a description that makes sure of its scopes, always. */
  lemma {:induction false} ParseIsStable(t: Type, b: bytes)
    requires Contained(t) && Stable(t) && ParseType(t, b).Ok?
    ensures var (v, r) := ParseType(t, b).value;
            && SerType(t, v).Some?
            && |SerType(t, v).value| <= |b| - |r|
            && ParseType(t, SerType(t, v).value) == Ok((v, []))
  {
    ParseTypeSound(t, b);
    var (v, r) := ParseType(t, b).value;
    RewriteEnds(b, r, SerType(t, v), TypeGrade(t, v));
    StableIff(t, b);
  }

  /** With no alternative encodings, what is written is what was read. */
  lemma {:induction false} ParseThenSerialize(t: Type, b: bytes)
    requires Contained(t) && Canonical(t) && ParseType(t, b).Ok?
    ensures var (v, r) := ParseType(t, b).value;
            |r| <= |b| && SerType(t, v) == Some(b[..|b| - |r|]) && r == b[|b| - |r|..]
  {
    ParseTypeSound(t, b);
    var (v, r) := ParseType(t, b).value;
    RewriteEnds(b, r, SerType(t, v), TypeGrade(t, v));
  }

  /** Values that agree with a description are told apart by their bytes. */
  lemma {:induction false} SerializeInjective(t: Type, v: Val, w: Val)
    requires FitsType(t, v, 0) && FitsType(t, w, 0) && SerType(t, v) == SerType(t, w)
    ensures v == w
  {
    TypeRoundTrip(t, v, []);
    TypeRoundTrip(t, w, []);
  }
}

/** What parsing a description means, item by item: which input each kind of item reads, which names its
    expressions see, and which error ends it. */
module Items {
  import opened Bytes
  import opened Outcome
  import opened Expr
  import opened Codec
  import S = Scalars
  import BG = BitGroup

  // ----- variants

  predicate Covers(p: Pattern, tag: int) {
    && (p.Exact? ==> p.value == tag)
    && (p.Range? ==> !(tag < p.start) && !(p.end < tag))
  }

  /** The first variant in declaration order that covers the tag. */
  predicate Chosen(variants: seq<Variant>, tag: int, i: nat) {
    && i < |variants| && Covers(variants[i].pattern, tag)
    && forall j :: 0 <= j < i ==> !Covers(variants[j].pattern, tag)
  }

  lemma {:induction false} SelectIs(variants: seq<Variant>, tag: int, i: nat)
    ensures Chosen(variants, tag, i) <==> i == Select(variants, tag) < |variants|
  {
    if variants != [] && !Matches(variants[0].pattern, tag) && i > 0 {
      SelectIs(variants[1..], tag, i - 1);
      ChosenTail(variants, tag, i);
    }
  }

  lemma {:induction false} ChosenTail(variants: seq<Variant>, tag: int, i: nat)
    requires i > 0 && variants != []
    ensures Chosen(variants, tag, i) <==> !Covers(variants[0].pattern, tag) && Chosen(variants[1..], tag, i - 1)
  {
    if !Covers(variants[0].pattern, tag) && Chosen(variants[1..], tag, i - 1) {
      forall j | 0 <= j < i ensures !Covers(variants[j].pattern, tag) {
        if j > 0 {
          assert variants[1..][j - 1] == variants[j];
        }
      }
    }
    if Chosen(variants, tag, i) {
      forall j | 0 <= j < i - 1 ensures !Covers(variants[1..][j].pattern, tag) {
        assert variants[1..][j] == variants[j + 1];
      }
    }
  }

  // ----- one after another

  /** Elements read one after another, rests[k] being what is left before element k. */
  ghost predicate Cuts(t: Type, xs: seq<Val>, rests: seq<bytes>) {
    && |rests| == |xs| + 1
    && forall k :: 0 <= k < |xs| ==> ParseType(t, rests[k]) == Ok((xs[k], rests[k + 1]))
  }

  ghost predicate From(rests: seq<bytes>, b: bytes, r: bytes) {
    rests != [] && rests[0] == b && rests[|rests| - 1] == r
  }

  lemma {:induction false} CutsFirst(t: Type, xs: seq<Val>, rests: seq<bytes>, b: bytes, r: bytes)
    requires xs != [] && Cuts(t, xs, rests) && From(rests, b, r)
    ensures ParseType(t, b) == Ok((xs[0], rests[1])) && Cuts(t, xs[1..], rests[1..]) && From(rests[1..], rests[1], r)
  {
    forall k | 0 <= k < |xs| - 1 ensures ParseType(t, rests[1..][k]) == Ok((xs[1..][k], rests[1..][k + 1])) {
      assert ParseType(t, rests[k + 1]) == Ok((xs[k + 1], rests[k + 2]));
    }
  }

  lemma {:induction false} CutsMore(t: Type, x: Val, xs: seq<Val>, b: bytes, rests: seq<bytes>, m: bytes, r: bytes)
    requires ParseType(t, b) == Ok((x, m)) && Cuts(t, xs, rests) && From(rests, m, r)
    ensures Cuts(t, [x] + xs, [b] + rests) && From([b] + rests, b, r)
  {
    forall k | 0 <= k < |xs| + 1 ensures ParseType(t, ([b] + rests)[k]) == Ok((([x] + xs)[k], ([b] + rests)[k + 1])) {
      if k > 0 {
        assert ParseType(t, rests[k - 1]) == Ok((xs[k - 1], rests[k]));
      }
    }
  }

  ghost predicate Counted(t: Type, xs: seq<Val>, b: bytes, r: bytes) {
    exists rests :: Cuts(t, xs, rests) && From(rests, b, r)
  }

  lemma {:induction false} CountHas(t: Type, n: nat, b: bytes, xs: seq<Val>, r: bytes)
    requires ParseCount(t, n, b) == Ok((xs, r))
    ensures |xs| == n && Counted(t, xs, b, r)
    decreases n
  {
    if n == 0 {
      assert Cuts(t, [], [b]) && From([b], b, b);
    } else {
      var (x, m) := ParseType(t, b).value;
      assert xs == [x] + xs[1..];
      CountHas(t, n - 1, m, xs[1..], r);
      var rests :| Cuts(t, xs[1..], rests) && From(rests, m, r);
      CutsMore(t, x, xs[1..], b, rests, m, r);
    }
  }

  lemma {:induction false} CountReads(t: Type, n: nat, b: bytes, xs: seq<Val>, r: bytes, rests: seq<bytes>)
    requires |xs| == n && Cuts(t, xs, rests) && From(rests, b, r)
    ensures ParseCount(t, n, b) == Ok((xs, r))
    decreases n
  {
    if n > 0 {
      CutsFirst(t, xs, rests, b, r);
      CountReads(t, n - 1, rests[1], xs[1..], r, rests[1..]);
      assert xs == [xs[0]] + xs[1..];
    }
  }

  /** A counted array is read exactly as that many elements one after another. */
  lemma {:induction false} ParseCountIs(t: Type, n: nat, b: bytes, xs: seq<Val>, r: bytes)
    ensures ParseCount(t, n, b) == Ok((xs, r)) <==> |xs| == n && Counted(t, xs, b, r)
  {
    if ParseCount(t, n, b) == Ok((xs, r)) {
      CountHas(t, n, b, xs, r);
    }
    if rests :| |xs| == n && Cuts(t, xs, rests) && From(rests, b, r) {
      CountReads(t, n, b, xs, r, rests);
    }
  }

  /** Elements that use up the input, none of them starting at its end. */
  ghost predicate Filled(t: Type, xs: seq<Val>, b: bytes) {
    exists rests :: Cuts(t, xs, rests) && From(rests, b, []) && NotBefore(rests)
  }

  predicate NotBefore(rests: seq<bytes>) {
    forall k :: 0 <= k < |rests| - 1 ==> rests[k] != []
  }

  /** A filling array is read exactly as elements up to the end of the input, no more than there is room for. */
  lemma {:induction false} ParseFillIs(t: Type, room: nat, b: bytes, xs: seq<Val>)
    ensures ParseFill(t, room, b) == Ok(xs) <==> |xs| <= room && Filled(t, xs, b)
    decreases room
  {
    if ParseFill(t, room, b) == Ok(xs) {
      FillHas(t, room, b, xs);
    }
    if |xs| <= room && Filled(t, xs, b) {
      var rests :| Cuts(t, xs, rests) && From(rests, b, []) && NotBefore(rests);
      FillReads(t, room, b, xs, rests);
    }
  }

  lemma {:induction false} FillHas(t: Type, room: nat, b: bytes, xs: seq<Val>)
    requires ParseFill(t, room, b) == Ok(xs)
    ensures |xs| <= room && Filled(t, xs, b)
    decreases room
  {
    if b == [] {
      assert Cuts(t, [], [b]) && From([b], b, []) && NotBefore([b]);
    } else {
      var (x, m) := ParseType(t, b).value;
      assert xs == [x] + xs[1..];
      FillHas(t, room - 1, m, xs[1..]);
      var rests :| Cuts(t, xs[1..], rests) && From(rests, m, []) && NotBefore(rests);
      CutsMore(t, x, xs[1..], b, rests, m, []);
      assert NotBefore([b] + rests) by {
        forall k | 0 <= k < |rests| ensures ([b] + rests)[k] != [] {
          if k > 0 {
            assert rests[k - 1] != [];
          }
        }
      }
    }
  }

  lemma {:induction false} FillReads(t: Type, room: nat, b: bytes, xs: seq<Val>, rests: seq<bytes>)
    requires |xs| <= room && Cuts(t, xs, rests) && From(rests, b, []) && NotBefore(rests)
    ensures ParseFill(t, room, b) == Ok(xs)
    decreases room
  {
    if xs != [] {
      assert rests[0] != [];
      CutsFirst(t, xs, rests, b, []);
      assert NotBefore(rests[1..]) by {
        forall k | 0 <= k < |rests[1..]| - 1 ensures rests[1..][k] != [] {
          assert rests[k + 1] != [];
        }
      }
      FillReads(t, room - 1, rests[1], xs[1..], rests[1..]);
      assert xs == [xs[0]] + xs[1..];
    }
  }

  // ----- the items of a scope

  /** Items read one after another, each seeing the names bound by those before it. */
  ghost predicate OpCuts(ops: seq<Op>, env: Env, vs: seq<Val>, rests: seq<bytes>) {
    && |vs| == |ops| && |rests| == |ops| + 1
    && forall k :: 0 <= k < |ops| ==> OpCut(ops, env, vs, rests, k)
  }

  ghost predicate OpCut(ops: seq<Op>, env: Env, vs: seq<Val>, rests: seq<bytes>, k: nat)
    requires |vs| == |ops| && |rests| == |ops| + 1 && k < |ops|
  {
    ParseOp(ops[k], ExtendAll(env, ops[..k], vs[..k]), rests[k]) == Ok((vs[k], rests[k + 1]))
  }

  ghost predicate OpsRead(ops: seq<Op>, env: Env, b: bytes, vs: seq<Val>, r: bytes) {
    exists rests :: OpCuts(ops, env, vs, rests) && From(rests, b, r)
  }

  lemma {:induction false} NamesBehind(ops: seq<Op>, env: Env, vs: seq<Val>, k: nat)
    requires ops != [] && vs != [] && k < |ops| && k < |vs|
    ensures ExtendAll(env, ops[..k + 1], vs[..k + 1]) == ExtendAll(Extend(env, ops[0], vs[0]), ops[1..][..k], vs[1..][..k])
  {
    assert ops[..k + 1][1..] == ops[1..][..k] && vs[..k + 1][1..] == vs[1..][..k];
  }

  lemma {:induction false} OpCutTail(ops: seq<Op>, env: Env, vs: seq<Val>, rests: seq<bytes>, k: nat)
    requires |vs| == |ops| && |rests| == |ops| + 1 && k + 1 < |ops|
    ensures OpCut(ops, env, vs, rests, k + 1) <==> OpCut(ops[1..], Extend(env, ops[0], vs[0]), vs[1..], rests[1..], k)
  {
    NamesBehind(ops, env, vs, k);
  }

  lemma {:induction false} OpCutsFirst(ops: seq<Op>, env: Env, vs: seq<Val>, rests: seq<bytes>, b: bytes, r: bytes)
    requires ops != [] && OpCuts(ops, env, vs, rests) && From(rests, b, r)
    ensures ParseOp(ops[0], env, b) == Ok((vs[0], rests[1]))
    ensures OpCuts(ops[1..], Extend(env, ops[0], vs[0]), vs[1..], rests[1..]) && From(rests[1..], rests[1], r)
  {
    assert OpCut(ops, env, vs, rests, 0);
    forall k | 0 <= k < |ops| - 1 ensures OpCut(ops[1..], Extend(env, ops[0], vs[0]), vs[1..], rests[1..], k) {
      OpCutTail(ops, env, vs, rests, k);
    }
  }

  lemma {:induction false} OpCutsMore(ops: seq<Op>, env: Env, v: Val, vs: seq<Val>, b: bytes, rests: seq<bytes>, m: bytes, r: bytes)
    requires ops != [] && ParseOp(ops[0], env, b) == Ok((v, m))
    requires OpCuts(ops[1..], Extend(env, ops[0], v), vs, rests) && From(rests, m, r)
    ensures OpCuts(ops, env, [v] + vs, [b] + rests) && From([b] + rests, b, r)
  {
    var ws, all := [v] + vs, [b] + rests;
    assert ws[1..] == vs && all[1..] == rests;
    forall k | 0 <= k < |ops| ensures OpCut(ops, env, ws, all, k) {
      if k > 0 {
        OpCutTail(ops, env, ws, all, k - 1);
      }
    }
  }

  /** A scope is read exactly as its items one after another, each in the scope of those before. */
  lemma {:induction false} ParseOpsIs(ops: seq<Op>, env: Env, b: bytes, vs: seq<Val>, r: bytes)
    ensures ParseOps(ops, env, b) == Ok((vs, r)) <==> OpsRead(ops, env, b, vs, r)
    decreases |ops|
  {
    if ops == [] {
      assert OpCuts(ops, env, [], [b]) && From([b], b, b);
    } else {
      if ParseOps(ops, env, b) == Ok((vs, r)) {
        var (v, m) := ParseOp(ops[0], env, b).value;
        assert vs == [v] + vs[1..];
        ParseOpsIs(ops[1..], Extend(env, ops[0], v), m, vs[1..], r);
        var rests :| OpCuts(ops[1..], Extend(env, ops[0], v), vs[1..], rests) && From(rests, m, r);
        OpCutsMore(ops, env, v, vs[1..], b, rests, m, r);
      }
      if OpsRead(ops, env, b, vs, r) {
        var rests :| OpCuts(ops, env, vs, rests) && From(rests, b, r);
        OpCutsFirst(ops, env, vs, rests, b, r);
        ParseOpsIs(ops[1..], Extend(env, ops[0], vs[0]), rests[1], vs[1..], r);
        assert vs == [vs[0]] + vs[1..];
      }
    }
  }

  /** The k-th item fails after those before it were read. */
  ghost predicate FailsAt(ops: seq<Op>, env: Env, b: bytes, k: nat, e: Error) {
    k < |ops|
    && exists vs, m :: OpsRead(ops[..k], env, b, vs, m) && ParseOp(ops[k], ExtendAll(env, ops[..k], vs), m) == Err(e)
  }

  /** The error of a scope is that of the first item that fails. */
  lemma {:induction false} OpsFail(ops: seq<Op>, env: Env, b: bytes, e: Error) returns (k: nat)
    requires ParseOps(ops, env, b) == Err(e)
    ensures FailsAt(ops, env, b, k, e)
    decreases |ops|
  {
    var first := ParseOp(ops[0], env, b);
    if first.Err? {
      k := 0;
      ParseOpsIs(ops[..0], env, b, [], b);
      assert ExtendAll(env, ops[..0], []) == env;
    } else {
      var (v, m) := first.value;
      var env' := Extend(env, ops[0], v);
      k := OpsFail(ops[1..], env', m, e);
      var vs, r :| OpsRead(ops[1..][..k], env', m, vs, r) && ParseOp(ops[1..][k], ExtendAll(env', ops[1..][..k], vs), r) == Err(e);
      FailsLater(ops, env, b, v, m, k, vs, r, e);
      k := k + 1;
    }
  }

  lemma {:induction false} FailsLater(ops: seq<Op>, env: Env, b: bytes, v: Val, m: bytes, k: nat, vs: seq<Val>, r: bytes, e: Error)
    requires ops != [] && ParseOp(ops[0], env, b) == Ok((v, m)) && k < |ops| - 1
    requires OpsRead(ops[1..][..k], Extend(env, ops[0], v), m, vs, r)
    requires ParseOp(ops[1..][k], ExtendAll(Extend(env, ops[0], v), ops[1..][..k], vs), r) == Err(e)
    ensures FailsAt(ops, env, b, k + 1, e)
  {
    var head := ops[..k + 1];
    assert head[1..] == ops[1..][..k] && head[0] == ops[0] && ops[1..][k] == ops[k + 1];
    var rests :| OpCuts(head[1..], Extend(env, head[0], v), vs, rests) && From(rests, m, r);
    OpCutsMore(head, env, v, vs, b, rests, m, r);
    assert OpsRead(head, env, b, [v] + vs, r);
    assert ([v] + vs)[1..] == vs;
    assert ExtendAll(env, head, [v] + vs) == ExtendAll(Extend(env, ops[0], v), head[1..], vs);
  }

  // ----- one item

  /** How many bytes a bytes field takes. */
  function Wanted(spec: BytesSpec, env: Env, b: bytes): Option<nat> {
    match spec
    case Fixed(n) => Some(n)
    case Length(e) => Size(e, env)
    case Remaining => Some(|b|)
    case LengthOrRemaining(f) => if env.Lookup(f) == Some(Missing) then Some(|b|) else Size(Ref(f), env)
  }

  /** What an item reads: a scalar or a nested type, the bytes of a bit group, some raw bytes, nothing or a type after
      a condition, elements, or nothing but a computed value or a check. */
  ghost predicate Reads(op: Op, env: Env, b: bytes, v: Val, r: bytes) {
    match op
    case Field(_, t) => ParseType(t, b) == Ok((v, r))
    case BitFields(_, g) => ParseGroup(g, b) == Ok((v, r))
    case Later(_, _) => v == Checked && r == b
    case Raw(_, spec) => v.Data? && Wanted(spec, env, b) == Some(|v.b|) && b == v.b + r
    case When(_, cond, t) =>
      if v.Present? then Truth(cond, env) == Some(true) && ParseType(t, b) == Ok((v.v, r))
      else Truth(cond, env) == Some(false) && v == Absent && r == b
    case Array(_, t, count, max) =>
      v.Elems? && Count(count, env) == Some(|v.xs|) && |v.xs| <= max && Counted(t, v.xs, b, r)
    case Fill(_, t, None, max) => v.Elems? && |v.xs| <= max && Filled(t, v.xs, b) && r == []
    case Fill(_, t, Some(within), max) =>
      v.Elems? && |v.xs| <= max && exists scope :: Size(within, env) == Some(|scope|) && b == scope + r && Filled(t, v.xs, scope)
    case Derived(_, ty, e) => Eval(e, env).Some? && v == Num(Convert(ty, Eval(e, env).value).n) && r == b
    case Require(e) => Truth(e, env) == Some(true) && v == Checked && r == b
  }

  lemma {:induction false} TakeIs(n: nat, b: bytes, d: bytes, r: bytes)
    ensures Take(Some(n), b) == Ok((d, r)) <==> |d| == n && b == d + r
  {
    if |d| == n && b == d + r {
      assert b[..n] == d && b[n..] == r;
    }
  }

  lemma {:induction false} RawIs(spec: BytesSpec, env: Env, b: bytes, v: Val, r: bytes)
    ensures ParseRaw(spec, env, b) == Ok((v, r)) <==> v.Data? && Wanted(spec, env, b) == Some(|v.b|) && b == v.b + r
  {
    var n := Wanted(spec, env, b);
    WholeTaken(b);
    if v.Data? && n.Some? {
      TakeIs(n.value, b, v.b, r);
    }
  }

  lemma {:induction false} WholeTaken(b: bytes)
    ensures Take(Some(|b|), b) == Ok((b, []))
  {
    assert b[..|b|] == b && b[|b|..] == [];
  }

  lemma {:induction false} ArrayIs(op: Op, env: Env, b: bytes, v: Val, r: bytes)
    requires op.Array?
    ensures ParseOp(op, env, b) == Ok((v, r)) <==> Reads(op, env, b, v, r)
  {
    if v.Elems? && Count(op.count, env).Some? {
      ParseCountIs(op.t, Count(op.count, env).value, b, v.xs, r);
    }
  }

  lemma {:induction false} FillIs(op: Op, env: Env, b: bytes, v: Val, r: bytes)
    requires op.Fill? && op.within.None?
    ensures ParseOp(op, env, b) == Ok((v, r)) <==> Reads(op, env, b, v, r)
  {
    if v.Elems? {
      ParseFillIs(op.t, op.max, b, v.xs);
    }
  }

  lemma {:induction false} FillWithinIs(op: Op, env: Env, b: bytes, v: Val, r: bytes)
    requires op.Fill? && op.within.Some?
    ensures ParseOp(op, env, b) == Ok((v, r)) <==> Reads(op, env, b, v, r)
  {
    var n := Size(op.within.value, env);
    if v.Elems? && n.Some? && n.value <= |b| {
      TakeIs(n.value, b, b[..n.value], b[n.value..]);
      ParseFillIs(op.t, op.max, b[..n.value], v.xs);
    }
    if scope :| v.Elems? && n == Some(|scope|) && b == scope + r && Filled(op.t, v.xs, scope) {
      TakeIs(|scope|, b, scope, r);
    }
  }

  /** An item is read with a value exactly in these cases. */
  lemma {:induction false} ParseOpIs(op: Op, env: Env, b: bytes, v: Val, r: bytes)
    ensures ParseOp(op, env, b) == Ok((v, r)) <==> Reads(op, env, b, v, r)
  {
    match op
    case Raw(_, spec) => RawIs(spec, env, b, v, r);
    case Array(_, _, _, _) => ArrayIs(op, env, b, v, r);
    case Fill(_, _, None, _) => FillIs(op, env, b, v, r);
    case Fill(_, _, Some(_), _) => FillWithinIs(op, env, b, v, r);
    case _ =>
  }

  // ----- a type

  /** The payload of a capsule in its scope: all of it in C, with what follows the capsule in sight. */
  ghost predicate PayloadReads(ops: seq<Op>, env: Env, backend: Backend, scope: bytes, rest: bytes, vs: seq<Val>) {
    if backend.C? then ParsePayload(ops, env, scope, rest) == Ok((vs, []))
    else exists unused :: OpsRead(ops, env, scope, vs, unused)
  }

  /** A capsule is its header, then the bytes of its scope, then what follows: the header says how many bytes, and
      which variant. */
  ghost predicate CapsuleReads(t: Type, b: bytes, hs: seq<Val>, i: nat, vs: seq<Val>, m: bytes, scope: bytes, r: bytes)
    requires t.Capsule?
  {
    var env := ExtendAll(NO_NAMES, t.header, hs);
    && OpsRead(t.header, NO_NAMES, b, hs, m) && m == scope + r && Size(t.within, env) == Some(|scope|)
    && Eval(t.selector, env).Some? && Chosen(t.variants, Eval(t.selector, env).value.n, i)
    && PayloadReads(t.variants[i].ops, PayloadEnv(env), t.backend, scope, r, vs)
  }

  ghost predicate TypeReads(t: Type, b: bytes, v: Val, r: bytes) {
    match t
    case Scalar(s) => v.Num? && S.Parse(s, b) == Ok((v.n, r))
    case Packet(ops) => v.Struct? && OpsRead(ops, NO_NAMES, b, v.vs, r)
    case Frame(tag, tagName, variants) =>
      v.Tagged? && Chosen(variants, v.tag, v.alt)
      && exists m :: S.Parse(tag, b) == Ok((v.tag, m)) && OpsRead(variants[v.alt].ops, FrameEnv(tag, tagName, v.tag), m, v.body, r)
    case Capsule(_, _, _, _, _) =>
      v.Encapsulated? && exists m, scope :: CapsuleReads(t, b, v.header, v.alt, v.body, m, scope, r)
  }

  lemma {:induction false} FrameIs(t: Type, b: bytes, v: Val, r: bytes)
    requires t.Frame?
    ensures ParseType(t, b) == Ok((v, r)) <==> TypeReads(t, b, v, r)
  {
    var first := S.Parse(t.tag, b);
    if first.Ok? {
      var (n, m) := first.value;
      var i := Select(t.variants, n);
      SelectIs(t.variants, n, i);
      if i < |t.variants| && v.Tagged? {
        ParseOpsIs(t.variants[i].ops, FrameEnv(t.tag, t.tagName, n), m, v.body, r);
        SelectIs(t.variants, n, v.alt);
      }
      if TypeReads(t, b, v, r) {
        SelectIs(t.variants, n, v.alt);
      }
    }
  }

  lemma {:induction false} PayloadIs(ops: seq<Op>, env: Env, backend: Backend, scope: bytes, rest: bytes, vs: seq<Val>)
    ensures PayloadReads(ops, env, backend, scope, rest, vs) <==>
            if backend.C? then ParsePayload(ops, env, scope, rest) == Ok((vs, []))
            else ParseOps(ops, env, scope).Ok? && ParseOps(ops, env, scope).value.0 == vs
  {
    if backend.Rust? {
      var p := ParseOps(ops, env, scope);
      if p.Ok? {
        ParseOpsIs(ops, env, scope, p.value.0, p.value.1);
      }
      if unused :| OpsRead(ops, env, scope, vs, unused) {
        ParseOpsIs(ops, env, scope, vs, unused);
      }
    }
  }

  /** The statements after the header. */
  function AfterHeader(t: Type, hs: seq<Val>, m: bytes): Result<(Val, bytes)>
    requires t.Capsule?
  {
    var env := ExtendAll(NO_NAMES, t.header, hs);
    var (scope, rest) :- Take(Size(t.within, env), m);
    match Eval(t.selector, env)
    case None => Err(Undefined)
    case Some(tag) =>
      var i := Select(t.variants, tag.n);
      if i == |t.variants| then Err(InvalidTag)
      else
        var (vs, unused) :-
          if t.backend.C? then ParsePayload(t.variants[i].ops, PayloadEnv(env), scope, rest)
          else ParseOps(t.variants[i].ops, PayloadEnv(env), scope);
        if t.backend.C? && unused != [] then Err(TrailingData) else Ok((Encapsulated(hs, i, vs), rest))
  }

  lemma {:induction false} CapsuleByHeader(t: Type, b: bytes)
    requires t.Capsule?
    ensures var h := ParseOps(t.header, NO_NAMES, b);
            ParseType(t, b) == if h.Err? then Err(h.error) else AfterHeader(t, h.value.0, h.value.1)
  {
  }

  lemma {:induction false} AfterHeaderIs(t: Type, hs: seq<Val>, i: nat, vs: seq<Val>, m: bytes, r: bytes)
    requires t.Capsule?
    ensures AfterHeader(t, hs, m) == Ok((Encapsulated(hs, i, vs), r)) <==>
            var env := ExtendAll(NO_NAMES, t.header, hs);
            && Eval(t.selector, env).Some? && Chosen(t.variants, Eval(t.selector, env).value.n, i)
            && exists scope :: m == scope + r && Size(t.within, env) == Some(|scope|)
                 && PayloadReads(t.variants[i].ops, PayloadEnv(env), t.backend, scope, r, vs)
  {
    var env := ExtendAll(NO_NAMES, t.header, hs);
    var n := Size(t.within, env);
    if Eval(t.selector, env).Some? {
      SelectIs(t.variants, Eval(t.selector, env).value.n, i);
      if i < |t.variants| && n.Some? && n.value <= |m| {
        var scope, rest := m[..n.value], m[n.value..];
        TakeIs(n.value, m, scope, rest);
        PayloadIs(t.variants[i].ops, PayloadEnv(env), t.backend, scope, rest, vs);
      }
      if scope :| m == scope + r && n == Some(|scope|) && i < |t.variants|
                  && PayloadReads(t.variants[i].ops, PayloadEnv(env), t.backend, scope, r, vs) {
        TakeIs(|scope|, m, scope, r);
      }
    }
  }

  lemma {:induction false} CapsuleIs(t: Type, b: bytes, v: Val, r: bytes)
    requires t.Capsule?
    ensures ParseType(t, b) == Ok((v, r)) <==> TypeReads(t, b, v, r)
  {
    CapsuleByHeader(t, b);
    var h := ParseOps(t.header, NO_NAMES, b);
    if h.Ok? && v.Encapsulated? {
      ParseOpsIs(t.header, NO_NAMES, b, h.value.0, h.value.1);
      AfterHeaderIs(t, h.value.0, v.alt, v.body, h.value.1, r);
      if ParseType(t, b) == Ok((v, r)) {
        var env := ExtendAll(NO_NAMES, t.header, v.header);
        var scope :| h.value.1 == scope + r && Size(t.within, env) == Some(|scope|)
          && PayloadReads(t.variants[v.alt].ops, PayloadEnv(env), t.backend, scope, r, v.body);
        assert CapsuleReads(t, b, v.header, v.alt, v.body, h.value.1, scope, r);
      }
    }
    if TypeReads(t, b, v, r) {
      var m, scope :| CapsuleReads(t, b, v.header, v.alt, v.body, m, scope, r);
      ParseOpsIs(t.header, NO_NAMES, b, v.header, m);
    }
  }

  /** A type is read with a value exactly in these cases. */
  lemma {:induction false} ParseTypeIs(t: Type, b: bytes, v: Val, r: bytes)
    ensures ParseType(t, b) == Ok((v, r)) <==> TypeReads(t, b, v, r)
  {
    match t
    case Scalar(_) =>
    case Packet(ops) => if v.Struct? { ParseOpsIs(ops, NO_NAMES, b, v.vs, r); }
    case Frame(_, _, _) => FrameIs(t, b, v, r);
    case Capsule(_, _, _, _, _) => CapsuleIs(t, b, v, r);
  }

  // ----- errors

  /** Some elements are read, and then one fails. */
  ghost predicate ElementFails(t: Type, xs: seq<Val>, b: bytes, e: Error) {
    exists rests :: Cuts(t, xs, rests) && rests[0] == b && ParseType(t, rests[|xs|]) == Err(e)
  }

  lemma {:induction false} CountFails(t: Type, n: nat, b: bytes, e: Error) returns (xs: seq<Val>)
    requires ParseCount(t, n, b) == Err(e)
    ensures |xs| < n && ElementFails(t, xs, b, e)
    decreases n
  {
    var first := ParseType(t, b);
    if first.Err? {
      xs := [];
      assert Cuts(t, [], [b]);
    } else {
      var (x, m) := first.value;
      var ys := CountFails(t, n - 1, m, e);
      xs := [x] + ys;
      OneMore(t, x, ys, b, m, e);
    }
  }

  lemma {:induction false} OneMoreCut(t: Type, x: Val, xs: seq<Val>, b: bytes, m: bytes, rests: seq<bytes>)
    requires ParseType(t, b) == Ok((x, m)) && Cuts(t, xs, rests) && rests[0] == m
    ensures Cuts(t, [x] + xs, [b] + rests) && ([b] + rests)[0] == b && ([b] + rests)[|[x] + xs|] == rests[|xs|]
  {
    CutsMore(t, x, xs, b, rests, m, rests[|xs|]);
  }

  lemma {:induction false} OneMore(t: Type, x: Val, xs: seq<Val>, b: bytes, m: bytes, e: Error)
    requires ParseType(t, b) == Ok((x, m)) && ElementFails(t, xs, m, e)
    ensures ElementFails(t, [x] + xs, b, e)
  {
    var rests :| Cuts(t, xs, rests) && rests[0] == m && ParseType(t, rests[|xs|]) == Err(e);
    OneMoreCut(t, x, xs, b, m, rests);
  }

  /** There is no room for the rest of the input. */
  ghost predicate Overfull(t: Type, xs: seq<Val>, b: bytes) {
    exists rests :: Cuts(t, xs, rests) && rests[0] == b && rests[|xs|] != []
  }

  lemma {:induction false} OneMoreRoom(t: Type, x: Val, xs: seq<Val>, b: bytes, m: bytes)
    requires ParseType(t, b) == Ok((x, m)) && Overfull(t, xs, m)
    ensures Overfull(t, [x] + xs, b)
  {
    var rests :| Cuts(t, xs, rests) && rests[0] == m && rests[|xs|] != [];
    OneMoreCut(t, x, xs, b, m, rests);
  }

  ghost predicate FillsBut(t: Type, max: nat, b: bytes, xs: seq<Val>, e: Error) {
    (|xs| < max && ElementFails(t, xs, b, e)) || (|xs| == max && e == Capacity && Overfull(t, xs, b))
  }

  lemma {:induction false} FillFails(t: Type, room: nat, b: bytes, e: Error) returns (xs: seq<Val>)
    requires ParseFill(t, room, b) == Err(e)
    ensures FillsBut(t, room, b, xs, e)
    decreases room
  {
    xs := [];
    if room == 0 || ParseType(t, b).Err? {
      assert Cuts(t, [], [b]);
    } else {
      var (x, m) := ParseType(t, b).value;
      var ys := FillFails(t, room - 1, m, e);
      xs := [x] + ys;
      FillsLater(t, room - 1, x, ys, b, m, e);
    }
  }

  lemma {:induction false} FillsLater(t: Type, max: nat, x: Val, ys: seq<Val>, b: bytes, m: bytes, e: Error)
    requires ParseType(t, b) == Ok((x, m)) && FillsBut(t, max, m, ys, e)
    ensures FillsBut(t, max + 1, b, [x] + ys, e)
  {
    if |ys| < max && ElementFails(t, ys, m, e) {
      OneMore(t, x, ys, b, m, e);
    } else {
      OneMoreRoom(t, x, ys, b, m);
    }
  }

  /** The error of an item that takes some bytes: no defined number of them, or too few. */
  predicate TakeFails(n: Option<nat>, b: bytes, e: Error) {
    if n.None? then e == Undefined else n.value > |b| && e == ShortBuffer
  }

  ghost predicate FillError(t: Type, max: nat, b: bytes, e: Error) {
    exists xs :: FillsBut(t, max, b, xs, e)
  }

  ghost predicate CountError(t: Type, n: nat, b: bytes, e: Error) {
    exists xs :: |xs| < n && ElementFails(t, xs, b, e)
  }

  /** Why an item is not read: an expression without a value, too few bytes, a condition not met, more elements
      than there is room for, or whatever the type inside says. */
  ghost predicate Refuses(op: Op, env: Env, b: bytes, e: Error) {
    match op
    case Field(_, t) => ParseType(t, b) == Err(e)
    case BitFields(_, g) => TakeFails(Some(ContainerBytes(g.totalBits)), b, e)
    case Later(_, _) => false
    case Raw(_, spec) => TakeFails(Wanted(spec, env, b), b, e)
    case When(_, cond, t) =>
      if Truth(cond, env).None? then e == Undefined else Truth(cond, env).value && ParseType(t, b) == Err(e)
    case Array(_, t, count, max) =>
      var n := Count(count, env);
      if n.None? then e == Undefined else if n.value > max then e == Capacity else CountError(t, n.value, b, e)
    case Fill(_, t, None, max) => FillError(t, max, b, e)
    case Fill(_, t, Some(within), max) =>
      var n := Size(within, env);
      TakeFails(n, b, e) || (n.Some? && n.value <= |b| && FillError(t, max, b[..n.value], e))
    case Derived(_, _, x) => Eval(x, env).None? && e == Undefined
    case Require(x) => if Truth(x, env).None? then e == Undefined else !Truth(x, env).value && e == Constraint
  }

  lemma {:induction false} ArrayRefuses(op: Op, env: Env, b: bytes, e: Error)
    requires op.Array? && ParseOp(op, env, b) == Err(e)
    ensures Refuses(op, env, b, e)
  {
    var n := Count(op.count, env);
    if n.Some? && n.value <= op.max {
      var xs := CountFails(op.t, n.value, b, e);
    }
  }

  lemma {:induction false} FillRefuses(op: Op, env: Env, b: bytes, e: Error)
    requires op.Fill? && ParseOp(op, env, b) == Err(e)
    ensures Refuses(op, env, b, e)
  {
    if op.within.None? {
      var xs := FillFails(op.t, op.max, b, e);
    } else {
      var n := Size(op.within.value, env);
      if n.Some? && n.value <= |b| {
        var xs := FillFails(op.t, op.max, b[..n.value], e);
      }
    }
  }

  lemma {:induction false} RawRefuses(spec: BytesSpec, env: Env, b: bytes, e: Error)
    requires ParseRaw(spec, env, b) == Err(e)
    ensures TakeFails(Wanted(spec, env, b), b, e)
  {
  }

  /** An item that is not read is refused for one of these reasons. */
  lemma {:induction false} OpFails(op: Op, env: Env, b: bytes, e: Error)
    requires ParseOp(op, env, b) == Err(e)
    ensures Refuses(op, env, b, e)
  {
    match op
    case Raw(_, spec) => RawRefuses(spec, env, b, e);
    case Array(_, _, _, _) => ArrayRefuses(op, env, b, e);
    case Fill(_, _, _, _) => FillRefuses(op, env, b, e);
    case _ =>
  }

  /** Why a frame or a capsule is not read, besides its items: no variant for the tag, a scope longer than the
      input, or, in C, a scope that is not used up. */
  ghost predicate TypeRefuses(t: Type, b: bytes, e: Error) {
    match t
    case Scalar(s) => S.Parse(s, b) == Err(e)
    case Packet(ops) => exists k: nat :: FailsAt(ops, NO_NAMES, b, k, e)
    case Frame(tag, tagName, variants) =>
      var first := S.Parse(tag, b);
      first == Err(e)
      || (first.Ok? && e == InvalidTag && forall i :: 0 <= i < |variants| ==> !Covers(variants[i].pattern, first.value.0))
      || (first.Ok? && exists i: nat, k: nat ::
            && Chosen(variants, first.value.0, i)
            && FailsAt(variants[i].ops, FrameEnv(tag, tagName, first.value.0), first.value.1, k, e))
    case Capsule(header, _, _, _, _) =>
      (exists k: nat :: FailsAt(header, NO_NAMES, b, k, e))
      || exists hs, m :: OpsRead(header, NO_NAMES, b, hs, m) && HeaderRefuses(t, hs, m, e)
  }

  ghost predicate HeaderRefuses(t: Type, hs: seq<Val>, m: bytes, e: Error)
    requires t.Capsule?
  {
    var env := ExtendAll(NO_NAMES, t.header, hs);
    var n, tag := Size(t.within, env), Eval(t.selector, env);
    if n.None? || n.value > |m| then TakeFails(n, m, e)
    else if tag.None? then e == Undefined
    else
      (e == InvalidTag && forall i :: 0 <= i < |t.variants| ==> !Covers(t.variants[i].pattern, tag.value.n))
      || exists i: nat :: Chosen(t.variants, tag.value.n, i)
           && PayloadRefuses(t.variants[i].ops, PayloadEnv(env), t.backend, m[..n.value], m[n.value..], e)
  }

  ghost predicate PayloadRefuses(ops: seq<Op>, env: Env, backend: Backend, scope: bytes, rest: bytes, e: Error) {
    if backend.Rust? then exists k: nat :: FailsAt(ops, env, scope, k, e)
    else
      var p := ParsePayload(ops, env, scope, rest);
      if p.Err? then p == Err(e) else p.value.1 != [] && e == TrailingData
  }

  lemma {:induction false} NoneChosen(variants: seq<Variant>, tag: int)
    requires Select(variants, tag) == |variants|
    ensures forall i :: 0 <= i < |variants| ==> !Covers(variants[i].pattern, tag)
  {
    if variants != [] {
      NoneChosen(variants[1..], tag);
      forall i | 0 <= i < |variants| ensures !Covers(variants[i].pattern, tag) {
        if i > 0 {
          assert variants[1..][i - 1] == variants[i];
        }
      }
    }
  }

  lemma {:induction false} FrameFails(t: Type, b: bytes, e: Error)
    requires t.Frame? && ParseType(t, b) == Err(e)
    ensures TypeRefuses(t, b, e)
  {
    var first := S.Parse(t.tag, b);
    if first.Ok? {
      var (n, m) := first.value;
      var i := Select(t.variants, n);
      if i == |t.variants| {
        NoneChosen(t.variants, n);
      } else {
        SelectIs(t.variants, n, i);
        var k := OpsFail(t.variants[i].ops, FrameEnv(t.tag, t.tagName, n), m, e);
      }
    }
  }

  lemma {:induction false} AfterHeaderFails(t: Type, hs: seq<Val>, m: bytes, e: Error)
    requires t.Capsule? && AfterHeader(t, hs, m) == Err(e)
    ensures HeaderRefuses(t, hs, m, e)
  {
    var env := ExtendAll(NO_NAMES, t.header, hs);
    var n, tag := Size(t.within, env), Eval(t.selector, env);
    if n.Some? && n.value <= |m| && tag.Some? {
      var i := Select(t.variants, tag.value.n);
      if i == |t.variants| {
        NoneChosen(t.variants, tag.value.n);
      } else {
        SelectIs(t.variants, tag.value.n, i);
        if t.backend.Rust? {
          var k := OpsFail(t.variants[i].ops, PayloadEnv(env), m[..n.value], e);
        }
        assert PayloadRefuses(t.variants[i].ops, PayloadEnv(env), t.backend, m[..n.value], m[n.value..], e);
      }
    }
  }

  /** A type that is not read is refused for one of these reasons. */
  lemma {:induction false} TypeFails(t: Type, b: bytes, e: Error)
    requires ParseType(t, b) == Err(e)
    ensures TypeRefuses(t, b, e)
  {
    match t
    case Scalar(_) =>
    case Packet(ops) => var k := OpsFail(ops, NO_NAMES, b, e);
    case Frame(_, _, _) => FrameFails(t, b, e);
    case Capsule(header, _, _, _, _) =>
      CapsuleByHeader(t, b);
      var h := ParseOps(header, NO_NAMES, b);
      if h.Err? {
        var k := OpsFail(header, NO_NAMES, b, e);
      } else {
        ParseOpsIs(header, NO_NAMES, b, h.value.0, h.value.1);
        AfterHeaderFails(t, h.value.0, h.value.1, e);
      }
  }

  // ----- the payload of a C capsule

  /** Readings one after another, each in the scope of those before, all with the same bytes behind the scope. */
  ghost predicate PayloadCuts(ops: seq<Op>, env: Env, rest: bytes, ws: seq<Val>, rests: seq<bytes>) {
    && |ws| == |ops| && |rests| == |ops| + 1
    && forall k :: 0 <= k < |ops| ==> PayloadCut(ops, env, rest, ws, rests, k)
  }

  ghost predicate PayloadCut(ops: seq<Op>, env: Env, rest: bytes, ws: seq<Val>, rests: seq<bytes>, k: nat)
    requires |ws| == |ops| && |rests| == |ops| + 1 && k < |ops|
  {
    ParsePayloadOp(ops[k], ExtendAll(env, ops[..k], ws[..k]), rests[k], rest) == Ok((ws[k], rests[k + 1]))
  }

  /** What is read is read so. */
  lemma {:induction false} RunPayloadIs(ops: seq<Op>, env: Env, b: bytes, rest: bytes, ws: seq<Val>, r: bytes) returns (rests: seq<bytes>)
    requires RunPayload(ops, env, b, rest) == Ok((ws, r))
    ensures PayloadCuts(ops, env, rest, ws, rests) && From(rests, b, r)
    decreases |ops|
  {
    if ops == [] {
      rests := [b];
    } else {
      var (w, m) := ParsePayloadOp(ops[0], env, b, rest).value;
      assert ws == [w] + ws[1..];
      var later := RunPayloadIs(ops[1..], Extend(env, ops[0], w), m, rest, ws[1..], r);
      rests := [b] + later;
      assert rests[1..] == later;
      forall k | 0 <= k < |ops| ensures PayloadCut(ops, env, rest, ws, rests, k) {
        if k > 0 {
          NamesBehind(ops, env, ws, k - 1);
          assert PayloadCut(ops[1..], Extend(env, ops[0], w), rest, ws[1..], later, k - 1);
        }
      }
    }
  }

  predicate AsOutside(op: Op, env: Env) {
    && !op.Later? && !(op.Fill? && op.within.None?)
    && !(op.Raw? && op.spec.LengthOrRemaining? && env.Lookup(op.spec.field) == Some(Missing))
  }

  /** A further field of a bit group reads the group's bytes once more; bytes of an absent length are as many as
      there are behind the scope, and leave nothing of it; a filling array reads nothing where nothing is behind
      the scope, and otherwise ends in an error. Everything else is read as outside. */
  lemma {:induction false} PayloadItemIs(op: Op, env: Env, b: bytes, rest: bytes)
    ensures op.Later? ==> ParsePayloadOp(op, env, b, rest) == ParseOp(BitFields(op.names, op.group), env, b)
    ensures op.Raw? && op.spec.LengthOrRemaining? && env.Lookup(op.spec.field) == Some(Missing) ==>
              ParsePayloadOp(op, env, b, rest) == Ok((Data((b + rest)[..|rest|]), []))
    ensures op.Fill? && op.within.None? && rest == [] ==> ParsePayloadOp(op, env, b, rest) == Ok((Elems([]), b))
    ensures op.Fill? && op.within.None? && rest != [] ==>
              && ParsePayloadOp(op, env, b, rest).Err?
              && EndlessError(op.t, op.max, b, ParsePayloadOp(op, env, b, rest).error)
    ensures AsOutside(op, env) ==> ParsePayloadOp(op, env, b, rest) == ParseOp(op, env, b)
  {
    if op.Fill? && op.within.None? && rest != [] {
      var xs := EndlessIs(op.t, op.max, b);
    }
  }

  /** That of an element, or of the one there is no room for. */
  ghost predicate EndlessError(t: Type, max: nat, b: bytes, e: Error) {
    exists xs :: EndsWith(t, max, b, xs, e)
  }

  ghost predicate EndsWith(t: Type, max: nat, b: bytes, xs: seq<Val>, e: Error) {
    (|xs| < max && ElementFails(t, xs, b, e)) || (|xs| == max && e == Capacity && Readable(t, xs, b))
  }

  ghost predicate Readable(t: Type, xs: seq<Val>, b: bytes) {
    exists rests :: Cuts(t, xs, rests) && rests[0] == b
  }

  lemma {:induction false} EndlessIs(t: Type, room: nat, b: bytes) returns (xs: seq<Val>)
    ensures EndsWith(t, room, b, xs, EndlessFill(t, room, b))
    decreases room
  {
    xs := [];
    if room == 0 || ParseType(t, b).Err? {
      assert Cuts(t, [], [b]);
    } else {
      var (x, m) := ParseType(t, b).value;
      var ys := EndlessIs(t, room - 1, m);
      xs := [x] + ys;
      EndsLater(t, room - 1, x, ys, b, m, EndlessFill(t, room - 1, m));
    }
  }

  lemma {:induction false} EndsLater(t: Type, max: nat, x: Val, ys: seq<Val>, b: bytes, m: bytes, e: Error)
    requires ParseType(t, b) == Ok((x, m)) && EndsWith(t, max, m, ys, e)
    ensures EndsWith(t, max + 1, b, [x] + ys, e)
  {
    if |ys| < max && ElementFails(t, ys, m, e) {
      OneMore(t, x, ys, b, m, e);
    } else {
      OneMoreRead(t, x, ys, b, m);
    }
  }

  lemma {:induction false} OneMoreRead(t: Type, x: Val, xs: seq<Val>, b: bytes, m: bytes)
    requires ParseType(t, b) == Ok((x, m)) && Readable(t, xs, m)
    ensures Readable(t, [x] + xs, b)
  {
    var rests :| Cuts(t, xs, rests) && rests[0] == m;
    OneMoreCut(t, x, xs, b, m, rests);
  }

  /** Of all readings of a bit group the last one from the k-th item on. */
  predicate LastGroup(ops: seq<Op>, k: nat, names: seq<string>, g: Group, j: nat) {
    && k <= j < |ops| && (j == k || ops[j] == Later(names, g))
    && forall i :: j < i < |ops| ==> ops[i] != Later(names, g)
  }

  lemma {:induction false} LastReadingIs(names: seq<string>, g: Group, v: Val, ops: seq<Op>, ws: seq<Val>, j: nat)
    requires |ws| == |ops| && j <= |ops| && (j > 0 ==> ops[j - 1] == Later(names, g))
    requires forall i :: j <= i < |ops| ==> ops[i] != Later(names, g)
    ensures LastReading(names, g, v, ops, ws) == if j == 0 then v else ws[j - 1]
    decreases |ops|
  {
    if ops != [] {
      forall i | 0 <= i < |ops[1..]| ensures ops[1..][i] == ops[i + 1] {
      }
      if j == 0 {
        assert ops[0] != Later(names, g);
        LastReadingIs(names, g, v, ops[1..], ws[1..], 0);
      } else {
        LastReadingIs(names, g, if ops[0] == Later(names, g) then ws[0] else v, ops[1..], ws[1..], j - 1);
      }
    }
  }

  /** The struct keeps the last reading of each bit group, in the place of its first field, and of everything else
      the only one. */
  lemma {:induction false} FinalIs(ops: seq<Op>, ws: seq<Val>, k: nat, j: nat)
    requires |ws| == |ops| && k < |ops|
    ensures |Final(ops, ws)| == |ops|
    ensures !ops[k].BitFields? && !ops[k].Later? ==> Final(ops, ws)[k] == ws[k]
    ensures ops[k].Later? ==> Final(ops, ws)[k] == Checked
    ensures ops[k].BitFields? && LastGroup(ops, k, ops[k].names, ops[k].group, j) ==> Final(ops, ws)[k] == ws[j]
    decreases |ops|
  {
    FinalLength(ops, ws);
    if k == 0 {
      if ops[0].BitFields? && LastGroup(ops, 0, ops[0].names, ops[0].group, j) {
        var rest := ops[1..];
        forall i | 0 <= i < |rest| ensures rest[i] == ops[i + 1] {
        }
        LastReadingIs(ops[0].names, ops[0].group, ws[0], rest, ws[1..], j);
      }
    } else {
      FinalIs(ops[1..], ws[1..], k - 1, if j > 0 then j - 1 else 0);
      if ops[k].BitFields? && LastGroup(ops, k, ops[k].names, ops[k].group, j) {
        LastGroupTail(ops, k, ops[k].names, ops[k].group, j);
      }
    }
  }

  lemma {:induction false} LastGroupTail(ops: seq<Op>, k: nat, names: seq<string>, g: Group, j: nat)
    requires k > 0 && LastGroup(ops, k, names, g, j)
    ensures LastGroup(ops[1..], k - 1, names, g, j - 1)
  {
    forall i | j - 1 < i < |ops[1..]| ensures ops[1..][i] != Later(names, g) {
      assert ops[1..][i] == ops[i + 1];
    }
  }

  lemma {:induction false} FinalLength(ops: seq<Op>, ws: seq<Val>)
    requires |ws| == |ops|
    ensures |Final(ops, ws)| == |ops|
    decreases |ops|
  {
    if ops != [] {
      FinalLength(ops[1..], ws[1..]);
    }
  }
}

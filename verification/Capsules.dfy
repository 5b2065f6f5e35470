/** Capsules: what the C payload code has in common with the ordinary one, and when a parsed capsule
    parses again. */
module Capsules {
  import opened Bits
  import opened Bytes
  import opened Outcome
  import opened Expr
  import opened Codec
  import opened RoundTrip
  import opened Scopes
  import opened Stability
  import S = Scalars
  import BG = BitGroup

  // ----- the C payload code against the ordinary code

  predicate FillsScope(op: Op) {
    op.Fill? && op.within.None?
  }

  /** No further field of a bit group, no bytes of an optional length, no array that fills the scope. */
  predicate Ordinary(ops: seq<Op>) {
    Plain(ops) && forall i :: 0 <= i < |ops| ==> !FillsScope(ops[i])
  }

  lemma {:induction false} OrdinaryStep(ops: seq<Op>)
    requires ops != [] && Ordinary(ops)
    ensures Ordinary(ops[1..]) && !ops[0].Later? && !IsLengthOrRemaining(ops[0]) && !FillsScope(ops[0])
  {
    assert forall i :: 0 < i < |ops| ==> ops[i] == ops[1..][i - 1];
  }

  lemma {:induction false} OrdinaryOp(op: Op, env: Env, b: bytes, rest: bytes)
    requires !op.Later? && !IsLengthOrRemaining(op) && !FillsScope(op)
    ensures ParsePayloadOp(op, env, b, rest) == ParseOp(op, env, b)
  {
  }

  /** Such a payload is read as anywhere else, whatever lies behind its scope. */
  lemma {:induction false} OrdinaryPayload(ops: seq<Op>, env: Env, b: bytes, rest: bytes)
    requires Ordinary(ops)
    ensures ParsePayload(ops, env, b, rest) == ParseOps(ops, env, b)
  {
    OrdinaryRun(ops, env, b, rest);
    if RunPayload(ops, env, b, rest).Ok? {
      RunLength(ops, env, b, rest);
      FinalIsRead(ops, RunPayload(ops, env, b, rest).value.0);
    }
  }

  lemma {:induction false} OrdinaryRun(ops: seq<Op>, env: Env, b: bytes, rest: bytes)
    requires Ordinary(ops)
    ensures RunPayload(ops, env, b, rest) == ParseOps(ops, env, b)
    decreases |ops|
  {
    if ops != [] {
      OrdinaryStep(ops);
      OrdinaryOp(ops[0], env, b, rest);
      if ParseOp(ops[0], env, b).Ok? {
        var (v, r) := ParseOp(ops[0], env, b).value;
        OrdinaryRun(ops[1..], Extend(env, ops[0], v), r, rest);
      }
    }
  }

  /** Bytes of an absent length are the same ones only if as many remain behind the scope as in it. */
  lemma {:induction false} AbsentLengthAgreesIff(op: Op, env: Env, b: bytes, rest: bytes)
    requires IsLengthOrRemaining(op) && env.Lookup(op.spec.field) == Some(Missing)
    ensures ParsePayloadOp(op, env, b, rest) == ParseOp(op, env, b) <==> |rest| == |b|
  {
    assert |(b + rest)[..|rest|]| == |rest|;
    if |rest| == |b| {
      TakeBehind(b, rest);
    }
  }

  lemma {:induction false} EndlessError(t: Type, room: nat, b: bytes)
    requires ParseFill(t, room, b).Err?
    ensures ParseFill(t, room, b) == Err(EndlessFill(t, room, b))
  {
    if room != 0 && ParseType(t, b).Ok? {
      EndlessError(t, room - 1, ParseType(t, b).value.1);
    }
  }

  /** A filling array is the same array only if there is nothing in the scope or behind it, or an error
      in both. */
  lemma {:induction false} FillAgreesIff(op: Op, env: Env, b: bytes, rest: bytes)
    requires FillsScope(op)
    ensures ParsePayloadOp(op, env, b, rest) == ParseOp(op, env, b) <==>
            if rest == [] then b == [] else ParseFill(op.t, op.max, b).Err?
  {
    if ParseFill(op.t, op.max, b).Err? {
      EndlessError(op.t, op.max, b);
    }
  }

  // ----- when a parsed capsule parses again

  /** A capsule of a stable description fills its scope: what is written for the payload is as long, and
      an ordinary payload parser sees the scope and nothing after it and uses all of it. */
  lemma {:induction false} CapsuleFillsScope(t: Type, b: bytes) returns (head: bytes, scope: bytes)
    requires t.Capsule? && Contained(t) && Stable(t) && ParseType(t, b).Ok?
    ensures var (v, rest) := ParseType(t, b).value;
            && b == head + scope + rest
            && v.Encapsulated? && v.alt < |t.variants|
            && var env, ops := ExtendAll(NO_NAMES, t.header, v.header), t.variants[v.alt].ops;
               && Size(t.within, env) == Some(|scope|) == Some(Width(SerOps(ops, v.body)))
               && ParsePayload(ops, PayloadEnv(env), scope, rest) == Ok((v.body, []))
               && (Ordinary(ops) ==> ParseOps(ops, PayloadEnv(env), scope) == Ok((v.body, [])))
  {
    var (v, rest) := ParseType(t, b).value;
    var unused;
    scope, unused := CapsuleReads(t, b);
    ParseOpsSound(t.header, NO_NAMES, b);
    RewriteEnds(b, scope + rest, SerOps(t.header, v.header), OpsGrade(t.header, NO_NAMES, v.header));
    head := b[..|b| - |scope + rest|];
    Assoc(head, scope, rest);
    ParseTypeSound(t, b);
    RewriteEnds(b, rest, SerType(t, v), TypeGrade(t, v));
    CapsuleKept(t, v);
    var env, ops := PayloadEnv(ExtendAll(NO_NAMES, t.header, v.header)), t.variants[v.alt].ops;
    if Ordinary(ops) {
      OrdinaryPayload(ops, env, scope, rest);
    }
  }

  lemma {:induction false} CapsuleSerializes(t: Type, v: Val, head: bytes, body: bytes)
    requires t.Capsule? && v.Encapsulated? && v.alt < |t.variants|
    requires SerOps(t.header, v.header) == Some(head) && SerOps(t.variants[v.alt].ops, v.body) == Some(body)
    ensures SerType(t, v) == Some(head + body)
  {
  }

  lemma {:induction false} CutShort(t: Type, v: Val, head: bytes, body: bytes, n: nat)
    requires t.Capsule? && v.Encapsulated? && v.alt < |t.variants| && |body| < n
    requires SerOps(t.header, v.header) == Some(head) && SerOps(t.variants[v.alt].ops, v.body) == Some(body)
    requires Size(t.within, ExtendAll(NO_NAMES, t.header, v.header)) == Some(n)
    requires ParseOps(t.header, NO_NAMES, head + body) == Ok((v.header, body))
    ensures SerType(t, v).Some? && ParseType(t, SerType(t, v).value) == Err(ShortBuffer)
  {
    CapsuleSerializes(t, v, head, body);
    assert Take(Some(n), body) == Err(ShortBuffer);
  }

  /** A parsed capsule whose header is kept is cut short when its payload is written shorter than the scope
      it came from; otherwise it parses again exactly when the payload's own scopes are kept. */
  lemma {:induction false} CapsuleStableIff(t: Type, b: bytes)
    requires t.Capsule? && Contained(t) && ParseType(t, b).Ok?
    requires ParseType(t, b).value.0.Encapsulated? ==> OpsKept(t.header, NO_NAMES, ParseType(t, b).value.0.header)
    ensures var v := ParseType(t, b).value.0;
            && v.Encapsulated? && v.alt < |t.variants| && SerType(t, v).Some?
            && var env, ops := ExtendAll(NO_NAMES, t.header, v.header), t.variants[v.alt].ops;
               var again := ParseType(t, SerType(t, v).value);
               if Size(t.within, env) != Some(Width(SerOps(ops, v.body))) then again == Err(ShortBuffer)
               else again == Ok((v, [])) <==> OpsKept(ops, PayloadEnv(env), v.body)
  {
    var (v, rest) := ParseType(t, b).value;
    var scope, unused := CapsuleReads(t, b);
    StableIff(t, b);
    CapsuleKept(t, v);
    var k := CapsuleParts(t, b, v, rest, scope, unused);
    CapsuleShortened(t, b, v, rest, scope, unused, k);
  }

  lemma {:induction false} CapsuleShortened(t: Type, b: bytes, v: Val, rest: bytes, scope: bytes, unused: bytes, k: bool)
    requires t.Capsule? && v.Encapsulated? && PartsSound(t, b, v, rest, scope, unused, k) && PartsContained(t)
    requires OpsKept(t.header, NO_NAMES, v.header)
    ensures |scope| != Width(SerOps(t.variants[v.alt].ops, v.body)) ==>
            SerType(t, v).Some? && ParseType(t, SerType(t, v).value) == Err(ShortBuffer)
  {
    var ops, env := t.variants[v.alt].ops, ExtendAll(NO_NAMES, t.header, v.header);
    var e := SerOps(ops, v.body);
    RewriteEnds(scope, unused, e, PartGrade(t, v.alt, PayloadEnv(env), v.body, k));
    RewriteEnds(b, scope + rest, SerOps(t.header, v.header), OpsGrade(t.header, NO_NAMES, v.header));
    if |scope| != Width(e) {
      FitsOpsMono(t.header, NO_NAMES, v.header, |scope + rest|, |e.value|);
      OpsRoundTrip(t.header, NO_NAMES, v.header, e.value);
      CutShort(t, v, SerOps(t.header, v.header).value, e.value, |scope|);
    }
  }

  /** A C capsule on its own, with bytes of an optional length in its payload: it parses again exactly when
      its scopes are kept, no bit group has a second field, and bytes of an absent length are none. */
  lemma {:induction false} OutermostStableIff(t: Type, b: bytes)
    requires t.Capsule? && t.backend.C? && PartsContained(t) && ParseType(t, b).Ok?
    ensures var v := ParseType(t, b).value.0;
            && v.Encapsulated? && v.alt < |t.variants| && SerType(t, v).Some?
            && var env, ops := ExtendAll(NO_NAMES, t.header, v.header), t.variants[v.alt].ops;
               ParseType(t, SerType(t, v).value) == Ok((v, [])) <==>
               ScopesKept(t, v) && NoLater(ops) && NoOverrun(ops, PayloadEnv(env), v.body)
  {
    var (v, rest) := ParseType(t, b).value;
    var scope, unused := CapsuleReads(t, b);
    var env, ops := PayloadEnv(ExtendAll(NO_NAMES, t.header, v.header)), t.variants[v.alt].ops;
    OutermostWritten(t, b, v, rest, scope);
    var e := SerType(t, v).value;
    if ScopesKept(t, v) && NoLater(ops) && NoOverrun(ops, env, v.body) {
      RunLength(ops, env, scope, rest);
      FinalIsRead(ops, RunPayload(ops, env, scope, rest).value.0);
      var k := CapsuleParts(t, b, v, rest, scope, unused);
      FitsAlone(t, b, v, rest, scope, k, 0);
      TypeRoundTrip(t, v, []);
      Assoc(e, [], []);
    }
    if ParseType(t, e) == Ok((v, [])) {
      OutermostKept(t, e, v);
    }
  }

  lemma {:induction false} OutermostWritten(t: Type, b: bytes, v: Val, rest: bytes, scope: bytes)
    requires t.Capsule? && t.backend.C? && v.Encapsulated? && PartsContained(t) && Reads(t, b, v, rest, scope, [])
    ensures SerType(t, v).Some?
  {
    var env, ops := PayloadEnv(ExtendAll(NO_NAMES, t.header, v.header)), t.variants[v.alt].ops;
    ParseOpsSound(t.header, NO_NAMES, b);
    RewriteEnds(b, scope + rest, SerOps(t.header, v.header), OpsGrade(t.header, NO_NAMES, v.header));
    RunWidth(ops, env, scope, rest);
  }

  lemma {:induction false} PayloadAlone(ops: seq<Op>, env: Env, scope: bytes, vs: seq<Val>, rest: bytes, k: bool, after: nat)
    requires PayloadSound(ops, env, scope, vs, rest, k) && NoOverrun(ops, env, vs) && after <= |rest|
    requires |scope| == Width(SerOps(ops, vs))
    ensures FitsPayload(ops, env, vs, after)
  {
    RewriteEnds(scope, [], SerOps(ops, vs), PayloadGrade(ops, k));
    FitsPayloadMono(ops, env, vs, |rest|, after);
  }

  lemma {:induction false} HeaderAlone(ops: seq<Op>, b: bytes, hs: seq<Val>, scope: bytes, rest: bytes, after: nat)
    requires OpsContained(ops) && OpsSound(ops, NO_NAMES, b, hs, scope + rest) && OpsKept(ops, NO_NAMES, hs) && after <= |rest|
    ensures FitsOps(ops, NO_NAMES, hs, |scope| + after)
  {
    FitsOpsMono(ops, NO_NAMES, hs, |scope + rest|, |scope| + after);
  }

  lemma {:induction false} PartsAlone(t: Type, b: bytes, v: Val, rest: bytes, scope: bytes, k: bool, after: nat)
    requires t.Capsule? && t.backend.C? && v.Encapsulated? && PartsContained(t) && after <= |rest|
    requires PartsSound(t, b, v, rest, scope, [], k) && OpsKept(t.header, NO_NAMES, v.header)
    requires |scope| == Width(SerOps(t.variants[v.alt].ops, v.body))
    requires NoOverrun(t.variants[v.alt].ops, PayloadEnv(ExtendAll(NO_NAMES, t.header, v.header)), v.body)
    ensures FitsOps(t.header, NO_NAMES, v.header, |scope| + after)
    ensures FitsPayload(t.variants[v.alt].ops, PayloadEnv(ExtendAll(NO_NAMES, t.header, v.header)), v.body, after)
    ensures var env := ExtendAll(NO_NAMES, t.header, v.header);
            && Size(t.within, env) == Some(|scope|)
            && Eval(t.selector, env).Some? && v.alt == Select(t.variants, Eval(t.selector, env).value.n)
  {
    HeaderAlone(t.header, b, v.header, scope, rest, after);
    PayloadAlone(t.variants[v.alt].ops, PayloadEnv(ExtendAll(NO_NAMES, t.header, v.header)), scope, v.body, rest, k, after);
  }

  lemma {:induction false} KeptParts(t: Type, v: Val, scope: bytes)
    requires t.Capsule? && v.Encapsulated? && v.alt < |t.variants| && ScopesKept(t, v)
    requires Size(t.within, ExtendAll(NO_NAMES, t.header, v.header)) == Some(|scope|)
    ensures OpsKept(t.header, NO_NAMES, v.header) && |scope| == Width(SerOps(t.variants[v.alt].ops, v.body))
  {
    CapsuleKept(t, v);
  }

  lemma {:induction false} FitsAlone(t: Type, b: bytes, v: Val, rest: bytes, scope: bytes, k: bool, after: nat)
    requires t.Capsule? && t.backend.C? && v.Encapsulated? && PartsContained(t) && after <= |rest|
    requires PartsSound(t, b, v, rest, scope, [], k) && ScopesKept(t, v)
    requires NoOverrun(t.variants[v.alt].ops, PayloadEnv(ExtendAll(NO_NAMES, t.header, v.header)), v.body)
    ensures FitsType(t, v, after)
  {
    KeptParts(t, v, scope);
    PartsAlone(t, b, v, rest, scope, k, after);
    CapsuleFits(t, v, ExtendAll(NO_NAMES, t.header, v.header), after);
  }

  lemma {:induction false} OutermostKept(t: Type, e: bytes, v: Val)
    requires t.Capsule? && t.backend.C? && PartsContained(t)
    requires ParseType(t, e) == Ok((v, [])) && SerType(t, v) == Some(e)
    ensures v.Encapsulated? && v.alt < |t.variants| && ScopesKept(t, v)
    ensures NoLater(t.variants[v.alt].ops)
    ensures NoOverrun(t.variants[v.alt].ops, PayloadEnv(ExtendAll(NO_NAMES, t.header, v.header)), v.body)
  {
    var scope, unused := CapsuleReads(t, e);
    var env, ops := PayloadEnv(ExtendAll(NO_NAMES, t.header, v.header)), t.variants[v.alt].ops;
    var k := CapsuleParts(t, e, v, [], scope, unused);
    CapsuleSound(t, e, v, [], scope, unused, k);
    RewriteEnds(e, [], SerType(t, v), TypeGrade(t, v));
    CapsuleKept(t, v);
    RewriteEnds(scope, [], SerOps(ops, v.body), PayloadGrade(ops, k));
    RunLength(ops, env, scope, []);
    FinalIsRead(ops, RunPayload(ops, env, scope, []).value.0);
    NothingBehind(ops, env, scope);
  }
}

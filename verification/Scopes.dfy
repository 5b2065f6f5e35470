/** Scopes of a known size: which values fill theirs, and which descriptions make sure of it. */
module Scopes {
  import opened Bits
  import opened Bytes
  import opened Outcome
  import opened Expr
  import opened Codec
  import opened RoundTrip
  import S = Scalars

  // ----- values

  /** Every scope is written in as many bytes as its `within` expression says. */
  predicate ScopesKept(t: Type, v: Val)
    decreases t, 0
  {
    match (t, v)
    case (Packet(ops), Struct(vs)) => OpsKept(ops, NO_NAMES, vs)
    case (Frame(tag, tagName, variants), Tagged(n, i, vs)) =>
      i < |variants| && OpsKept(variants[i].ops, FrameEnv(tag, tagName, n), vs)
    case (Capsule(header, within, _, variants, _), Encapsulated(hs, i, vs)) =>
      var env := ExtendAll(NO_NAMES, header, hs);
      && i < |variants|
      && OpsKept(header, NO_NAMES, hs)
      && Size(within, env) == Some(Width(SerOps(variants[i].ops, vs)))
      && OpsKept(variants[i].ops, PayloadEnv(env), vs)
    case _ => true
  }

  predicate OpsKept(ops: seq<Op>, env: Env, vs: seq<Val>)
    decreases ops, 0
  {
    ops == [] || vs == []
    || (OpKept(ops[0], env, vs[0]) && OpsKept(ops[1..], Extend(env, ops[0], vs[0]), vs[1..]))
  }

  predicate OpKept(op: Op, env: Env, v: Val)
    decreases op, 0
  {
    match (op, v)
    case (Field(_, t), _) => ScopesKept(t, v)
    case (When(_, _, t), Present(x)) => ScopesKept(t, x)
    case (Array(_, t, _, _), Elems(xs)) => AllKept(t, xs)
    case (Fill(_, t, within, _), Elems(xs)) =>
      AllKept(t, xs) && (within.Some? ==> Size(within.value, env) == Some(Width(SerAll(t, xs))))
    case _ => true
  }

  predicate AllKept(t: Type, xs: seq<Val>)
    decreases t, 1, xs
  {
    xs == [] || (ScopesKept(t, xs[0]) && AllKept(t, xs[1..]))
  }

  // ----- descriptions

  predicate IsLengthOrRemaining(op: Op) {
    op.Raw? && op.spec.LengthOrRemaining?
  }

  predicate NoLengthOrRemaining(ops: seq<Op>) {
    forall i :: 0 <= i < |ops| ==> !IsLengthOrRemaining(ops[i])
  }

  /** A payload that C reads once and inside its scope. */
  predicate Plain(ops: seq<Op>) {
    NoLater(ops) && NoLengthOrRemaining(ops)
  }

  /** No data of a C capsule's payload can reach past its scope. */
  predicate Contained(t: Type)
    decreases t, 0
  {
    match t
    case Scalar(_) => true
    case Packet(ops) => OpsContained(ops)
    case Frame(_, _, variants) => forall i :: 0 <= i < |variants| ==> OpsContained(variants[i].ops)
    case Capsule(header, _, _, variants, backend) =>
      && OpsContained(header)
      && forall i :: 0 <= i < |variants| ==>
         OpsContained(variants[i].ops) && (backend.C? ==> NoLengthOrRemaining(variants[i].ops))
  }

  predicate OpsContained(ops: seq<Op>)
    decreases ops, 0
  {
    forall i :: 0 <= i < |ops| ==> OpContained(ops[i])
  }

  predicate OpContained(op: Op)
    decreases op, 0
  {
    match op
    case Field(_, t) => Contained(t)
    case When(_, _, t) => Contained(t)
    case Array(_, t, _, _) => Contained(t)
    case Fill(_, t, _, _) => Contained(t)
    case _ => true
  }

  /** What is parsed takes as many bytes when serialized. */
  predicate KeepsLength(t: Type)
    decreases t, 0
  {
    match t
    case Scalar(s) => S.KeepsLength(s)
    case Packet(ops) => OpsKeepLength(ops)
    case Frame(tag, _, variants) => S.KeepsLength(tag) && forall i :: 0 <= i < |variants| ==> OpsKeepLength(variants[i].ops)
    case Capsule(header, _, _, variants, backend) =>
      && backend.C? && OpsKeepLength(header)
      && forall i :: 0 <= i < |variants| ==> Plain(variants[i].ops) && OpsKeepLength(variants[i].ops)
  }

  predicate OpsKeepLength(ops: seq<Op>)
    decreases ops, 0
  {
    forall i :: 0 <= i < |ops| ==> OpKeepsLength(ops[i])
  }

  predicate OpKeepsLength(op: Op)
    decreases op, 0
  {
    match op
    case Field(_, t) => KeepsLength(t)
    case When(_, _, t) => KeepsLength(t)
    case Array(_, t, _, _) => KeepsLength(t)
    case Fill(_, t, _, _) => KeepsLength(t)
    case _ => true
  }

  /** What is parsed is serialized to the very bytes it was read from. */
  predicate Canonical(t: Type)
    decreases t, 0
  {
    match t
    case Scalar(s) => S.Canonical(s)
    case Packet(ops) => OpsCanonical(ops)
    case Frame(tag, _, variants) => S.Canonical(tag) && forall i :: 0 <= i < |variants| ==> OpsCanonical(variants[i].ops)
    case Capsule(header, _, _, variants, backend) =>
      && backend.C? && OpsCanonical(header)
      && forall i :: 0 <= i < |variants| ==> Plain(variants[i].ops) && OpsCanonical(variants[i].ops)
  }

  predicate OpsCanonical(ops: seq<Op>)
    decreases ops, 0
  {
    forall i :: 0 <= i < |ops| ==> OpCanonical(ops[i])
  }

  predicate OpCanonical(op: Op)
    decreases op, 0
  {
    match op
    case Field(_, t) => Canonical(t)
    case BitFields(_, g) => g.totalBits == 8 * ContainerBytes(g.totalBits)
    case When(_, _, t) => Canonical(t)
    case Array(_, t, _, _) => Canonical(t)
    case Fill(_, t, _, _) => Canonical(t)
    case _ => true
  }

  /** Every scope holds only what keeps its length, and what is left of a capsule's scope is rejected: each
      scope of each parsed value is kept. */
  predicate Stable(t: Type)
    decreases t, 0
  {
    match t
    case Scalar(_) => true
    case Packet(ops) => OpsStable(ops)
    case Frame(_, _, variants) => forall i :: 0 <= i < |variants| ==> OpsStable(variants[i].ops)
    case Capsule(header, _, _, variants, backend) =>
      && backend.C? && OpsStable(header)
      && forall i :: 0 <= i < |variants| ==> Plain(variants[i].ops) && OpsKeepLength(variants[i].ops)
  }

  predicate OpsStable(ops: seq<Op>)
    decreases ops, 0
  {
    forall i :: 0 <= i < |ops| ==> OpStable(ops[i])
  }

  predicate OpStable(op: Op)
    decreases op, 0
  {
    match op
    case Field(_, t) => Stable(t)
    case When(_, _, t) => Stable(t)
    case Array(_, t, _, _) => Stable(t)
    case Fill(_, t, within, _) => Stable(t) && (within.Some? ==> KeepsLength(t))
    case _ => true
  }

  // ----- descriptions that are all of this

  /** Numbers, varints under @strict, bit groups that fill their integer, raw bytes, computed values and checks. */
  predicate Flat(op: Op) {
    match op
    case Field(_, Scalar(s)) => (s.Prim? && !s.kind.Flag?) || (s.Prefix? && s.table.strict)
    case BitFields(_, g) => g.totalBits in {8, 16, 32, 64}
    case Raw(_, spec) => !spec.LengthOrRemaining?
    case Derived(_, _, _) => true
    case Require(_) => true
    case _ => false
  }

  predicate AllFlat(ops: seq<Op>) {
    forall i :: 0 <= i < |ops| ==> Flat(ops[i])
  }

  lemma {:induction false} FlatOps(ops: seq<Op>)
    requires AllFlat(ops)
    ensures OpsContained(ops) && OpsKeepLength(ops) && OpsCanonical(ops) && OpsStable(ops) && Plain(ops)
  {
    forall i | 0 <= i < |ops|
      ensures OpContained(ops[i]) && OpKeepsLength(ops[i]) && OpCanonical(ops[i]) && OpStable(ops[i])
      ensures !ops[i].Later? && !IsLengthOrRemaining(ops[i])
    {
      assert Flat(ops[i]);
    }
  }

  /** A packet of such items, and a C capsule of them whatever its length and selector say, keeps its scopes, its
      lengths and its bytes. */
  lemma {:induction false} FlatIsStable(header: seq<Op>, within: Expr, selector: Expr, variants: seq<Variant>)
    requires AllFlat(header) && forall i :: 0 <= i < |variants| ==> AllFlat(variants[i].ops)
    ensures var t := Packet(header); Contained(t) && KeepsLength(t) && Canonical(t) && Stable(t)
    ensures var t := Capsule(header, within, selector, variants, C); Contained(t) && KeepsLength(t) && Canonical(t) && Stable(t)
  {
    FlatOps(header);
    forall i | 0 <= i < |variants|
      ensures OpsContained(variants[i].ops) && OpsKeepLength(variants[i].ops) && OpsCanonical(variants[i].ops) && Plain(variants[i].ops)
    {
      FlatOps(variants[i].ops);
    }
  }

  // ----- fewer bytes after a value never hurt

  /** No bytes of an absent length reached past the scope of a C payload: there were none to reach. */
  predicate NoOverrun(ops: seq<Op>, env: Env, vs: seq<Val>)
    decreases |ops|
  {
    ops == [] || vs == []
    || (OpInside(ops[0], env, vs[0]) && NoOverrun(ops[1..], Extend(env, ops[0], vs[0]), vs[1..]))
  }

  predicate OpInside(op: Op, env: Env, v: Val) {
    IsLengthOrRemaining(op) && env.Lookup(op.spec.field) == Some(Missing) ==> v == Data([])
  }

  lemma {:induction false} OpsStep(ops: seq<Op>)
    requires ops != []
    ensures OpsKeepLength(ops) <==> OpKeepsLength(ops[0]) && OpsKeepLength(ops[1..])
    ensures OpsCanonical(ops) <==> OpCanonical(ops[0]) && OpsCanonical(ops[1..])
    ensures OpsStable(ops) <==> OpStable(ops[0]) && OpsStable(ops[1..])
    ensures OpsContained(ops) <==> OpContained(ops[0]) && OpsContained(ops[1..])
    ensures NoLengthOrRemaining(ops) <==> !IsLengthOrRemaining(ops[0]) && NoLengthOrRemaining(ops[1..])
  {
    assert forall i :: 0 < i < |ops| ==> ops[i] == ops[1..][i - 1];
  }

  lemma {:induction false} NothingToOverrun(ops: seq<Op>, env: Env, vs: seq<Val>)
    requires NoLengthOrRemaining(ops)
    ensures NoOverrun(ops, env, vs)
    decreases |ops|
  {
    if ops != [] && vs != [] {
      NothingToOverrun(ops[1..], Extend(env, ops[0], vs[0]), vs[1..]);
    }
  }

  lemma {:induction false} FitsTypeMono(t: Type, v: Val, a: nat, b: nat)
    requires FitsType(t, v, a) && b <= a && Contained(t)
    ensures FitsType(t, v, b)
    decreases t, 0
  {
    match (t, v)
    case (Scalar(_), _) =>
    case (Packet(ops), Struct(vs)) => FitsOpsMono(ops, NO_NAMES, vs, a, b);
    case (Frame(tag, tagName, variants), Tagged(n, i, vs)) =>
      FitsOpsMono(variants[i].ops, FrameEnv(tag, tagName, n), vs, a, b);
    case (Capsule(header, _, _, variants, backend), Encapsulated(hs, i, vs)) =>
      var w := Width(SerOps(variants[i].ops, vs));
      FitsOpsMono(header, NO_NAMES, hs, w + a, w + b);
      if backend.C? {
        var env := PayloadEnv(ExtendAll(NO_NAMES, header, hs));
        NothingToOverrun(variants[i].ops, env, vs);
        FitsPayloadMono(variants[i].ops, env, vs, a, b);
      }
  }

  lemma {:induction false} FitsOpsMono(ops: seq<Op>, env: Env, vs: seq<Val>, a: nat, b: nat)
    requires FitsOps(ops, env, vs, a) && b <= a && OpsContained(ops)
    ensures FitsOps(ops, env, vs, b)
    decreases ops, 0
  {
    if ops != [] {
      var w := Width(SerOps(ops[1..], vs[1..]));
      FitsOpMono(ops[0], env, vs[0], w + a, w + b);
      FitsOpsMono(ops[1..], Extend(env, ops[0], vs[0]), vs[1..], a, b);
    }
  }

  lemma {:induction false} FitsPayloadMono(ops: seq<Op>, env: Env, vs: seq<Val>, a: nat, b: nat)
    requires FitsPayload(ops, env, vs, a) && b <= a && NoOverrun(ops, env, vs)
    ensures FitsPayload(ops, env, vs, b)
    decreases |ops|
  {
    if ops != [] {
      FitsPayloadOpMono(ops[0], env, vs[0], Width(SerOps(ops[1..], vs[1..])), a, b);
      FitsPayloadMono(ops[1..], Extend(env, ops[0], vs[0]), vs[1..], a, b);
    }
  }

  lemma {:induction false} FitsPayloadOpMono(op: Op, env: Env, v: Val, after: nat, a: nat, b: nat)
    requires FitsPayloadOp(op, env, v, after, a) && b <= a && OpInside(op, env, v)
    ensures FitsPayloadOp(op, env, v, after, b)
  {
  }

  lemma {:induction false} FitsOpMono(op: Op, env: Env, v: Val, a: nat, b: nat)
    requires FitsOp(op, env, v, a) && b <= a && OpContained(op)
    ensures FitsOp(op, env, v, b)
    decreases op, 0
  {
    match (op, v)
    case (Field(_, t), _) => FitsTypeMono(t, v, a, b);
    case (When(_, _, t), Present(x)) => FitsTypeMono(t, x, a, b);
    case (Array(_, t, _, _), Elems(xs)) => FitsAllMono(t, xs, a, b);
    case (Fill(_, t, _, _), Elems(xs)) =>
    case _ =>
  }

  lemma {:induction false} FitsAllMono(t: Type, xs: seq<Val>, a: nat, b: nat)
    requires FitsAll(t, xs, a) && b <= a && Contained(t)
    ensures FitsAll(t, xs, b)
    decreases t, 1, xs
  {
    if xs != [] {
      var w := Width(SerAll(t, xs[1..]));
      FitsTypeMono(t, xs[0], w + a, w + b);
      FitsAllMono(t, xs[1..], a, b);
    }
  }
}

/** What depends on one field of a scope: a value that agrees with its description still does when a field
    that no expression mentions changes. */
module OneField {
  import opened Bits
  import opened Bytes
  import opened Outcome
  import opened Expr
  import opened Codec
  import opened RoundTrip
  import opened SkippedField
  import S = Scalars
  import BG = BitGroup

  predicate OpMentions(op: Op, name: string) {
    match op
    case Raw(_, Length(e)) => Mentions(e, name)
    case Raw(_, LengthOrRemaining(f)) => f == name
    case When(_, cond, _) => Mentions(cond, name)
    case Array(_, _, count, _) => Mentions(count, name)
    case Fill(_, _, Some(within), _) => Mentions(within, name)
    case Derived(_, _, e) => Mentions(e, name)
    case Require(e) => Mentions(e, name)
    case _ => false
  }

  predicate NoneMentions(ops: seq<Op>, name: string) {
    forall i :: 0 <= i < |ops| ==> !OpMentions(ops[i], name)
  }

  lemma {:induction false} BindAgrees(a: Env, b: Env, name: string, x: string, v: Binding)
    requires AgreeExcept(a, b, name)
    ensures AgreeExcept(Bind(a, x, v), Bind(b, x, v), name)
  {
    if x == name {
      assert a.local[x := v] - {name} == a.local - {name};
      assert b.local[x := v] - {name} == b.local - {name};
    } else {
      assert a.local[x := v] - {name} == (a.local - {name})[x := v];
      assert b.local[x := v] - {name} == (b.local - {name})[x := v];
    }
  }

  lemma {:induction false} BindName(a: Env, name: string, v: Binding, w: Binding)
    ensures AgreeExcept(Bind(a, name, v), Bind(a, name, w), name)
  {
    assert a.local[name := v] - {name} == a.local[name := w] - {name};
  }

  lemma {:induction false} BindMembersAgrees(a: Env, b: Env, name: string, names: seq<string>, ms: seq<BG.Member>, vs: seq<Val>)
    requires AgreeExcept(a, b, name)
    ensures AgreeExcept(BindMembers(a, names, ms, vs), BindMembers(b, names, ms, vs), name)
    decreases |names|
  {
    if names != [] && ms != [] && vs != [] {
      if vs[0].Num? {
        var v := Bound(CVal(MemberType(ms[0].width), vs[0].n));
        BindAgrees(a, b, name, names[0], v);
        BindMembersAgrees(Bind(a, names[0], v), Bind(b, names[0], v), name, names[1..], ms[1..], vs[1..]);
      } else {
        BindMembersAgrees(a, b, name, names[1..], ms[1..], vs[1..]);
      }
    }
  }

  lemma {:induction false} ExtendAgrees(a: Env, b: Env, name: string, op: Op, v: Val)
    requires AgreeExcept(a, b, name)
    ensures AgreeExcept(Extend(a, op, v), Extend(b, op, v), name)
  {
    match op
    case Field(x, Scalar(s)) => if v.Num? { BindAgrees(a, b, name, x, Bound(CVal(S.TypeOf(s), v.n))); }
    case BitFields(names, g) => if v.Struct? { BindMembersAgrees(a, b, name, names, g.members, v.vs); }
    case Later(names, g) => if v.Struct? { BindMembersAgrees(a, b, name, names, g.members, v.vs); }
    case When(x, _, Scalar(s)) =>
      if v.Present? && v.v.Num? {
        BindAgrees(a, b, name, x, Bound(CVal(S.TypeOf(s), v.v.n)));
      } else if v.Absent? {
        BindAgrees(a, b, name, x, Missing);
      }
    case Derived(x, ty, _) => if v.Num? { BindAgrees(a, b, name, x, Bound(CVal(ty, v.n))); }
    case _ =>
  }

  lemma {:induction false} FitsOpIgnores(op: Op, a: Env, b: Env, name: string, v: Val, after: nat)
    requires AgreeExcept(a, b, name) && !OpMentions(op, name)
    ensures FitsOp(op, a, v, after) <==> FitsOp(op, b, v, after)
  {
    match op
    case Raw(_, Length(e)) => EvalIgnores(e, a, b, name);
    case Raw(_, LengthOrRemaining(f)) => LookupAgrees(a, b, name, f);
    case When(_, cond, _) => EvalIgnores(cond, a, b, name);
    case Array(_, _, count, _) => EvalIgnores(count, a, b, name);
    case Fill(_, _, Some(within), _) => EvalIgnores(within, a, b, name);
    case Derived(_, _, e) => EvalIgnores(e, a, b, name);
    case Require(e) => EvalIgnores(e, a, b, name);
    case _ =>
  }

  lemma {:induction false} FitsOpsIgnores(ops: seq<Op>, a: Env, b: Env, name: string, vs: seq<Val>, after: nat)
    requires AgreeExcept(a, b, name) && NoneMentions(ops, name) && FitsOps(ops, a, vs, after)
    ensures FitsOps(ops, b, vs, after)
    decreases |ops|
  {
    if ops != [] {
      FitsOpIgnores(ops[0], a, b, name, vs[0], Width(SerOps(ops[1..], vs[1..])) + after);
      ExtendAgrees(a, b, name, ops[0], vs[0]);
      FitsOpsIgnores(ops[1..], Extend(a, ops[0], vs[0]), Extend(b, ops[0], vs[0]), name, vs[1..], after);
    }
  }

  /** A fixed-width unsigned field of the scope. */
  predicate IsField(ops: seq<Op>, k: nat, name: string, width: nat, big: bool) {
    && width in {1, 2, 3, 4, 8} && k < |ops|
    && ops[k] == Field(name, Scalar(S.Prim(width, big, S.Unsigned)))
  }

  function FieldBytes(width: nat, big: bool, n: nat): (b: bytes)
    ensures |b| == width
  {
    if big then ToBE(width, n) else ToLE(width, n)
  }

  lemma {:induction false} SameCount(ops: seq<Op>, env: Env, vs: seq<Val>, after: nat)
    requires FitsOps(ops, env, vs, after)
    ensures |vs| == |ops|
    decreases |ops|
  {
    if ops != [] {
      SameCount(ops[1..], Extend(env, ops[0], vs[0]), vs[1..], after);
    }
  }

  lemma {:induction false} FitsSerializes(ops: seq<Op>, env: Env, vs: seq<Val>, after: nat)
    requires FitsOps(ops, env, vs, after)
    ensures SerOps(ops, vs).Some?
  {
    OpsRoundTrip(ops, env, vs, Zeros(after));
  }

  /** Splitting a sequence, and splitting its tail. */
  lemma {:induction false} SplitAt<T>(xs: seq<T>, k: nat)
    requires k <= |xs|
    ensures xs[..k] + xs[k..] == xs && xs[0..] == xs
    ensures 0 < k ==> xs[..k][1..] == xs[1..][..k - 1] && xs[1..][k - 1..] == xs[k..]
    ensures k < |xs| ==> xs[k..][1..] == xs[k + 1..]
  {
  }

  lemma {:induction false} ReplaceAt<T>(xs: seq<T>, k: nat, x: T)
    requires k < |xs|
    ensures xs[k := x][..k] == xs[..k] && xs[k := x][k + 1..] == xs[k + 1..]
    ensures xs[k := x][1..] == if k == 0 then xs[1..] else xs[1..][k - 1 := x]
  {
  }

  lemma {:induction false} SerSplit(ops: seq<Op>, vs: seq<Val>, k: nat)
    requires |ops| == |vs| && k <= |ops|
    ensures SerOps(ops, vs) == Append(SerOps(ops[..k], vs[..k]), SerOps(ops[k..], vs[k..]))
    decreases |ops|
  {
    SplitAt(ops, k);
    SplitAt(vs, k);
    if k == 0 {
      AppendLaws(SerOps(ops, vs), None, None);
    } else {
      SerSplit(ops[1..], vs[1..], k - 1);
      AppendLaws(SerOp(ops[0], vs[0]), SerOps(ops[1..][..k - 1], vs[1..][..k - 1]), SerOps(ops[k..], vs[k..]));
    }
  }

  lemma {:induction false} AppendLaws(a: Option<bytes>, b: Option<bytes>, c: Option<bytes>)
    ensures Append(a, Append(b, c)) == Append(Append(a, b), c)
    ensures Append(Some([]), a) == a && Append(a, Some([])) == a
  {
    if a.Some? && b.Some? && c.Some? {
      assert a.value + (b.value + c.value) == a.value + b.value + c.value;
    }
    if a.Some? {
      assert [] + a.value == a.value && a.value + [] == a.value;
    }
  }

  lemma {:induction false} FieldWritten(op: Op, name: string, width: nat, big: bool, n: nat)
    requires IsField([op], 0, name, width, big)
    ensures SerOp(op, Num(n)) == Some(FieldBytes(width, big, n))
  {
  }

  /** Another number in field k is written with that field's bytes replaced in place. */
  lemma {:induction false} ReplaceBytes(ops: seq<Op>, k: nat, name: string, width: nat, big: bool, vs: seq<Val>, n: nat)
    requires IsField(ops, k, name, width, big) && |vs| == |ops| && vs[k].Num? && vs[k].n >= 0
    requires SerOps(ops, vs).Some?
    ensures SerOps(ops[..k], vs[..k]).Some?
    ensures var at, e := Width(SerOps(ops[..k], vs[..k])), SerOps(ops, vs).value;
            && at + width <= |e|
            && SerOps(ops, vs[k := Num(n)]) == Some(e[..at] + FieldBytes(width, big, n) + e[at + width..])
  {
    var ws := vs[k := Num(n)];
    SplitAtField(ops, k, name, width, big, vs, vs[k].n);
    SplitAtField(ops, k, name, width, big, ws, n);
    ReplaceAt(vs, k, Num(n));
    var e, head, tail := SerOps(ops, vs).value, SerOps(ops[..k], vs[..k]).value, SerOps(ops[k + 1..], vs[k + 1..]).value;
    Middle(head, FieldBytes(width, big, vs[k].n), tail);
  }

  lemma {:induction false} Middle(a: bytes, b: bytes, c: bytes)
    ensures var e := a + b + c; e[..|a|] == a && e[|a| + |b|..] == c
  {
  }

  lemma {:induction false} SplitAtField(ops: seq<Op>, k: nat, name: string, width: nat, big: bool, vs: seq<Val>, n: nat)
    requires IsField(ops, k, name, width, big) && |vs| == |ops| && vs[k] == Num(n)
    ensures SerOps(ops, vs) ==
            Append(Append(SerOps(ops[..k], vs[..k]), Some(FieldBytes(width, big, n))), SerOps(ops[k + 1..], vs[k + 1..]))
  {
    SerSplit(ops, vs, k);
    FieldWritten(ops[k], name, width, big, n);
    SplitAt(ops, k);
    SplitAt(vs, k);
    AppendLaws(SerOps(ops[..k], vs[..k]), Some(FieldBytes(width, big, n)), SerOps(ops[k + 1..], vs[k + 1..]));
  }

  lemma {:induction false} ReplaceWidth(ops: seq<Op>, k: nat, name: string, width: nat, big: bool, vs: seq<Val>, n: nat)
    requires IsField(ops, k, name, width, big) && |vs| == |ops| && vs[k].Num? && vs[k].n >= 0
    requires SerOps(ops, vs).Some?
    ensures Width(SerOps(ops, vs[k := Num(n)])) == Width(SerOps(ops, vs))
  {
    ReplaceBytes(ops, k, name, width, big, vs, n);
  }

  lemma {:induction false} FieldFits(op: Op, env: Env, v: Val, after: nat, s: S.Scalar)
    requires op.Field? && op.t == Scalar(s) && s.Prim? && s.kind.Unsigned?
    ensures FitsOp(op, env, v, after) <==> v.Num? && 0 <= v.n < Pow256(s.width)
  {
    assert FitsOp(op, env, v, after) <==> FitsType(op.t, v, after);
  }

  /** The value with another number in field k still agrees with the description. */
  lemma {:induction false} ReplaceFits(ops: seq<Op>, env: Env, k: nat, name: string, width: nat, big: bool, vs: seq<Val>, n: nat, after: nat)
    requires IsField(ops, k, name, width, big) && NoneMentions(ops, name) && n < Pow256(width)
    requires FitsOps(ops, env, vs, after)
    ensures |vs| == |ops| && vs[k].Num? && vs[k].n >= 0 && FitsOps(ops, env, vs[k := Num(n)], after)
    decreases |ops|
  {
    SameCount(ops, env, vs, after);
    ReplaceAt(vs, k, Num(n));
    if k == 0 {
      ReplaceFirst(ops, env, name, width, big, vs, n, after);
    } else {
      var env' := Extend(env, ops[0], vs[0]);
      ReplaceFits(ops[1..], env', k - 1, name, width, big, vs[1..], n, after);
      FitsSerializes(ops[1..], env', vs[1..], after);
      ReplaceWidth(ops[1..], k - 1, name, width, big, vs[1..], n);
      FitsFirst(ops, env, vs[k := Num(n)], after);
    }
  }

  lemma {:induction false} ReplaceFirst(ops: seq<Op>, env: Env, name: string, width: nat, big: bool, vs: seq<Val>, n: nat, after: nat)
    requires IsField(ops, 0, name, width, big) && NoneMentions(ops, name) && n < Pow256(width) && |vs| == |ops|
    requires FitsOps(ops, env, vs, after)
    ensures vs[0].Num? && vs[0].n >= 0 && FitsOps(ops, env, vs[0 := Num(n)], after)
  {
    var op, v, s := ops[0], vs[0], S.Prim(width, big, S.Unsigned);
    var behind := Width(SerOps(ops[1..], vs[1..])) + after;
    FieldFits(op, env, v, behind, s);
    FieldFits(op, env, Num(n), behind, s);
    BindName(env, name, Bound(CVal(S.TypeOf(s), v.n)), Bound(CVal(S.TypeOf(s), n)));
    FitsOpsIgnores(ops[1..], Extend(env, op, v), Extend(env, op, Num(n)), name, vs[1..], after);
    ReplaceAt(vs, 0, Num(n));
    FitsFirst(ops, env, vs[0 := Num(n)], after);
  }
}

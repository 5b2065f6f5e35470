/** What the names in a scope stand for: the value of the last item that says so, with the type of its struct
    member, and in a payload first of all what the header says. */
module Names {
  import opened Bits
  import opened Bytes
  import opened Outcome
  import opened Expr
  import opened ExprLaws
  import opened Codec
  import S = Scalars
  import BG = BitGroup
  import PV = PrefixVarInt
  import CV = ContVarInt

  // ----- types of struct members

  /** The smallest unsigned type with that many bits. */
  predicate Smallest(ty: CType, width: nat) {
    !ty.signed && ty.bits in {8, 16, 32, 64} && width <= ty.bits && (ty.bits == 8 || 2 * width > ty.bits)
  }

  /** The type a scalar is kept in: three bytes in four, a varint in eight, a flag in a bool. */
  predicate KeptIn(ty: CType, s: S.Scalar) {
    match s
    case Prim(w, _, k) =>
      if k.Flag? then ty == BOOL
      else ty.bits == (if w == 1 then 8 else if w == 2 then 16 else if w <= 4 then 32 else 64) && (ty.signed <==> k.Signed?)
    case _ => ty == ULONG
  }

  // ----- one item

  predicate Distinct(names: seq<string>) {
    forall i, j :: 0 <= i < j < |names| ==> names[i] != names[j]
  }

  /** The item's value says what the name stands for. */
  predicate Says(op: Op, v: Val, name: string) {
    match op
    case Field(x, Scalar(_)) => x == name && v.Num?
    case When(x, _, Scalar(_)) => x == name && (v.Absent? || (v.Present? && v.v.Num?))
    case Derived(x, _, _) => x == name && v.Num?
    case BitFields(names, _) => name in names && v.Struct?
    case Later(names, _) => name in names && v.Struct?
    case _ => false
  }

  /** And what it says: b. */
  predicate Gives(op: Op, v: Val, name: string, b: Binding) {
    && Says(op, v, name)
    && match op
       case Field(_, Scalar(s)) => b.Bound? && KeptIn(b.v.ty, s) && b.v.n == v.n
       case When(_, _, Scalar(s)) => if v.Absent? then b.Missing? else b.Bound? && KeptIn(b.v.ty, s) && b.v.n == v.v.n
       case Derived(_, ty, _) => b == Bound(CVal(ty, v.n))
       case BitFields(names, g) => GivesMember(names, g.members, v.vs, name, b)
       case Later(names, g) => GivesMember(names, g.members, v.vs, name, b)
       case _ => false
  }

  /** The name is that of a member, and b that member's value. */
  predicate GivesMember(names: seq<string>, ms: seq<BG.Member>, vs: seq<Val>, name: string, b: Binding) {
    && |names| == |ms| == |vs| && Distinct(names)
    && exists i :: 0 <= i < |names| && names[i] == name && vs[i].Num? && b.Bound? && b.v.n == vs[i].n && Smallest(b.v.ty, ms[i].width)
  }

  /** A name stands for the same in both. */
  predicate Same(env: Env, e: Env, x: string) {
    (x in e.local <==> x in env.local) && (x in e.local ==> e.local[x] == env.local[x])
  }

  predicate StandsFor(e: Env, name: string, b: Binding) {
    name in e.local && e.local[name] == b
  }

  lemma {:induction false} KeptInOnly(ty: CType, s: S.Scalar)
    ensures KeptIn(ty, s) ==> ty == S.TypeOf(s)
  {
  }

  lemma {:induction false} SmallestOnly(ty: CType, width: nat)
    ensures Smallest(ty, width) ==> ty == MemberType(width)
  {
  }

  /** Members after the name's own do not bind it again. */
  lemma {:induction false} MembersBehind(env: Env, names: seq<string>, ms: seq<BG.Member>, vs: seq<Val>, name: string)
    requires name !in names
    ensures Same(env, BindMembers(env, names, ms, vs), name) && BindMembers(env, names, ms, vs).header == env.header
    decreases |names|
  {
    if names != [] && ms != [] && vs != [] {
      var e := if vs[0].Num? then Bind(env, names[0], Bound(CVal(MemberType(ms[0].width), vs[0].n))) else env;
      MembersBehind(e, names[1..], ms[1..], vs[1..], name);
    }
  }

  lemma {:induction false} HeaderKept(env: Env, names: seq<string>, ms: seq<BG.Member>, vs: seq<Val>)
    ensures BindMembers(env, names, ms, vs).header == env.header
    decreases |names|
  {
    if names != [] && ms != [] && vs != [] {
      var e := if vs[0].Num? then Bind(env, names[0], Bound(CVal(MemberType(ms[0].width), vs[0].n))) else env;
      HeaderKept(e, names[1..], ms[1..], vs[1..]);
    }
  }

  lemma {:induction false} MemberBound(env: Env, names: seq<string>, ms: seq<BG.Member>, vs: seq<Val>, i: nat)
    requires |names| == |ms| == |vs| && Distinct(names) && i < |names| && vs[i].Num?
    ensures StandsFor(BindMembers(env, names, ms, vs), names[i], Bound(CVal(MemberType(ms[i].width), vs[i].n)))
    decreases |names|
  {
    var e := if vs[0].Num? then Bind(env, names[0], Bound(CVal(MemberType(ms[0].width), vs[0].n))) else env;
    if i == 0 {
      assert names[0] !in names[1..];
      MembersBehind(e, names[1..], ms[1..], vs[1..], names[0]);
    } else {
      assert Distinct(names[1..]);
      MemberBound(e, names[1..], ms[1..], vs[1..], i - 1);
    }
  }

  /** After an item a name stands for what the item's value says. */
  lemma {:induction false} ExtendGives(env: Env, op: Op, v: Val, name: string, b: Binding)
    requires Gives(op, v, name, b)
    ensures StandsFor(Extend(env, op, v), name, b)
  {
    match op
    case Field(_, Scalar(s)) => KeptInOnly(b.v.ty, s);
    case When(_, _, Scalar(s)) => if b.Bound? { KeptInOnly(b.v.ty, s); }
    case Derived(_, ty, _) =>
    case BitFields(names, g) => MemberGiven(env, names, g.members, v.vs, name, b);
    case Later(names, g) => MemberGiven(env, names, g.members, v.vs, name, b);
  }

  lemma {:induction false} MemberGiven(env: Env, names: seq<string>, ms: seq<BG.Member>, vs: seq<Val>, name: string, b: Binding)
    requires GivesMember(names, ms, vs, name, b)
    ensures StandsFor(BindMembers(env, names, ms, vs), name, b)
  {
    var i :| 0 <= i < |names| && names[i] == name && vs[i].Num? && b.Bound? && b.v.n == vs[i].n && Smallest(b.v.ty, ms[i].width);
    MemberBound(env, names, ms, vs, i);
    SmallestOnly(b.v.ty, ms[i].width);
  }

  /** An item that does not say what a name stands for leaves it as it was. */
  lemma {:induction false} ExtendKeeps(env: Env, op: Op, v: Val, name: string)
    ensures Extend(env, op, v).header == env.header
    ensures !Says(op, v, name) ==> Same(env, Extend(env, op, v), name)
  {
    match op
    case BitFields(names, g) => if v.Struct? { MembersKeep(env, names, g.members, v.vs, name); }
    case Later(names, g) => if v.Struct? { MembersKeep(env, names, g.members, v.vs, name); }
    case _ =>
  }

  lemma {:induction false} MembersKeep(env: Env, names: seq<string>, ms: seq<BG.Member>, vs: seq<Val>, name: string)
    ensures BindMembers(env, names, ms, vs).header == env.header
    ensures name !in names ==> Same(env, BindMembers(env, names, ms, vs), name)
  {
    HeaderKept(env, names, ms, vs);
    if name !in names {
      MembersBehind(env, names, ms, vs, name);
    }
  }

  // ----- a whole scope

  /** No item from the k-th on says what the name stands for. */
  predicate Silent(ops: seq<Op>, vs: seq<Val>, name: string, k: nat) {
    forall i :: k <= i < |ops| && i < |vs| ==> !Says(ops[i], vs[i], name)
  }

  lemma {:induction false} SilentKeeps(env: Env, ops: seq<Op>, vs: seq<Val>, name: string)
    ensures ExtendAll(env, ops, vs).header == env.header
    ensures Silent(ops, vs, name, 0) ==> Same(env, ExtendAll(env, ops, vs), name)
    decreases |ops|
  {
    if ops != [] && vs != [] {
      ExtendKeeps(env, ops[0], vs[0], name);
      SilentKeeps(Extend(env, ops[0], vs[0]), ops[1..], vs[1..], name);
      if Silent(ops, vs, name, 0) {
        SilentTail(ops, vs, name, 0);
      }
    }
  }

  lemma {:induction false} SilentTail(ops: seq<Op>, vs: seq<Val>, name: string, k: nat)
    requires ops != [] && vs != []
    ensures k == 0 && Silent(ops, vs, name, 0) ==> Silent(ops[1..], vs[1..], name, 0)
    ensures k > 0 && Silent(ops, vs, name, k) ==> Silent(ops[1..], vs[1..], name, k - 1)
  {
    forall i | 0 <= i < |ops[1..]| && i < |vs[1..]| ensures ops[1..][i] == ops[i + 1] && vs[1..][i] == vs[i + 1] {
    }
  }

  /** A name stands for what the last item says that says something about it. */
  lemma {:induction false} LastSays(env: Env, ops: seq<Op>, vs: seq<Val>, k: nat, name: string, b: Binding)
    requires k < |ops| && k < |vs| && Gives(ops[k], vs[k], name, b) && Silent(ops, vs, name, k + 1)
    ensures StandsFor(ExtendAll(env, ops, vs), name, b)
    decreases |ops|
  {
    var e := Extend(env, ops[0], vs[0]);
    SilentTail(ops, vs, name, k + 1);
    if k == 0 {
      ExtendGives(env, ops[0], vs[0], name, b);
      SilentKeeps(e, ops[1..], vs[1..], name);
    } else {
      LastSays(e, ops[1..], vs[1..], k - 1, name, b);
    }
  }

  /** In a packet a name is bound exactly if an item says so, and then to what the last such item says. */
  lemma {:induction false} PacketName(ops: seq<Op>, vs: seq<Val>, k: nat, name: string, b: Binding)
    ensures Silent(ops, vs, name, 0) ==> ExtendAll(NO_NAMES, ops, vs).Lookup(name) == None
    ensures k < |ops| && k < |vs| && Gives(ops[k], vs[k], name, b) && Silent(ops, vs, name, k + 1) ==>
              ExtendAll(NO_NAMES, ops, vs).Lookup(name) == Some(b)
  {
    SilentKeeps(NO_NAMES, ops, vs, name);
    if k < |ops| && k < |vs| && Gives(ops[k], vs[k], name, b) && Silent(ops, vs, name, k + 1) {
      LastSays(NO_NAMES, ops, vs, k, name, b);
    }
  }

  /** In a capsule's payload the header's names come first, whatever the payload says; only other names are the
      payload's own. */
  lemma {:induction false} PayloadName(header: Env, ops: seq<Op>, vs: seq<Val>, k: nat, name: string, b: Binding)
    ensures name in header.local ==> ExtendAll(PayloadEnv(header), ops, vs).Lookup(name) == Some(header.local[name])
    ensures name !in header.local && Silent(ops, vs, name, 0) ==> ExtendAll(PayloadEnv(header), ops, vs).Lookup(name) == None
    ensures name !in header.local && k < |ops| && k < |vs| && Gives(ops[k], vs[k], name, b) && Silent(ops, vs, name, k + 1) ==>
              ExtendAll(PayloadEnv(header), ops, vs).Lookup(name) == Some(b)
  {
    var env := PayloadEnv(header);
    SilentKeeps(env, ops, vs, name);
    if k < |ops| && k < |vs| && Gives(ops[k], vs[k], name, b) && Silent(ops, vs, name, k + 1) {
      LastSays(env, ops, vs, k, name, b);
    }
  }

  /** In a frame the tag's name comes first. */
  lemma {:induction false} FrameName(tag: S.Scalar, tagName: string, n: int, ty: CType, ops: seq<Op>, vs: seq<Val>, k: nat, name: string, b: Binding)
    requires KeptIn(ty, tag)
    ensures ExtendAll(FrameEnv(tag, tagName, n), ops, vs).Lookup(tagName) == Some(Bound(CVal(ty, n)))
    ensures name != tagName && Silent(ops, vs, name, 0) ==> ExtendAll(FrameEnv(tag, tagName, n), ops, vs).Lookup(name) == None
    ensures name != tagName && k < |ops| && k < |vs| && Gives(ops[k], vs[k], name, b) && Silent(ops, vs, name, k + 1) ==>
              ExtendAll(FrameEnv(tag, tagName, n), ops, vs).Lookup(name) == Some(b)
  {
    var env := FrameEnv(tag, tagName, n);
    KeptInOnly(ty, tag);
    SilentKeeps(env, ops, vs, name);
    if k < |ops| && k < |vs| && Gives(ops[k], vs[k], name, b) && Silent(ops, vs, name, k + 1) {
      LastSays(env, ops, vs, k, name, b);
    }
  }

  // ----- bit fields from the input

  /** Whole bytes of a power-of-two number that hold so many bits. */
  predicate Holding(n: nat, bits: nat) {
    n in {1, 2, 4, 8} && bits <= 8 * n && (n == 1 || bits > 4 * n)
  }

  lemma {:induction false} NumsAt(ns: seq<nat>, i: nat)
    requires i < |ns|
    ensures Nums(ns)[i] == Num(ns[i])
  {
    if i > 0 {
      NumsAt(ns[1..], i - 1);
    }
  }

  lemma {:induction false} GroupRead(g: Group, b: bytes, n: nat, w: nat)
    requires Holding(n, g.totalBits) && |b| >= n && w == if g.bigEndian then FromBE(b[..n]) else FromLE(b[..n])
    ensures ParseGroup(g, b) == Ok((Struct(Nums(BG.Unpack(g.members, w))), b[n..]))
  {
  }

  lemma {:induction false} WidthDown(ms: seq<BG.Member>, top: nat, i: nat)
    requires BG.TilesDown(ms, top) && i < |ms|
    ensures ms[i].width <= top
  {
    if i > 0 {
      WidthDown(ms[1..], ms[0].offset, i - 1);
    }
  }

  lemma {:induction false} WidthUp(ms: seq<BG.Member>, start: nat, top: nat, i: nat)
    requires BG.TilesUp(ms, start, top) && i <= |ms|
    ensures start <= top && (i < |ms| ==> start + ms[i].width <= top)
  {
    if ms != [] {
      WidthUp(ms[1..], start + ms[0].width, top, if i > 0 then i - 1 else 0);
    }
  }

  /** No member is wider than its group. */
  lemma {:induction false} MemberWidth(g: Group, i: nat)
    requires i < |g.members|
    ensures g.members[i].width <= 64
  {
    if g.bigEndian {
      WidthDown(g.members, g.totalBits, i);
    } else {
      WidthUp(g.members, 0, g.totalBits, i);
    }
  }

  lemma {:induction false} MemberWidths(g: Group)
    ensures forall i :: 0 <= i < |g.members| ==> g.members[i].width <= 64
  {
    forall i | 0 <= i < |g.members| ensures g.members[i].width <= 64 {
      MemberWidth(g, i);
    }
  }

  /** A bit field is its bits of the group's bytes, under its own name. */
  lemma {:induction false} MemberRead(names: seq<string>, g: Group, env: Env, b: bytes, n: nat, i: nat) returns (v: Val, x: Binding)
    requires Holding(n, g.totalBits) && |b| >= n && |names| == |g.members| && Distinct(names) && i < |names|
    ensures ParseOp(BitFields(names, g), env, b) == Ok((v, b[n..])) && Gives(BitFields(names, g), v, names[i], x) && x.Bound?
    ensures var w := if g.bigEndian then FromBE(b[..n]) else FromLE(b[..n]);
            x.v.n == w / Pow2(g.members[i].offset) % Pow2(g.members[i].width)
  {
    var w := if g.bigEndian then FromBE(b[..n]) else FromLE(b[..n]);
    var ns := BG.Unpack(g.members, w);
    GroupRead(g, b, n, w);
    BG.UnpackAt(g.members, w, i);
    MemberWidth(g, i);
    NumsAt(ns, i);
    v := Struct(Nums(ns));
    x := Bound(CVal(MemberType(g.members[i].width), ns[i]));
  }

  /** Bytes 12 and 13 of a TCP segment with no options and the SYN flag: the first four bits are the header's
      length in words, the last bit is the FIN flag. */
  lemma {:induction false} SynByHand(names: seq<string>, g: Group, env: Env, b: bytes) returns (v: Val, offset: Binding, fin: Binding)
    requires g.totalBits == 16 && g.bigEndian && |g.members| == 10 && |names| == 10 && Distinct(names)
    requires g.members[0] == BG.Member(12, 4) && g.members[9] == BG.Member(0, 1)
    requires |b| >= 2 && b[0] == 0x50 && b[1] == 0x02
    ensures ParseOp(BitFields(names, g), env, b) == Ok((v, b[2..]))
    ensures Gives(BitFields(names, g), v, names[0], offset) && offset.Bound? && offset.v.n == 5
    ensures Gives(BitFields(names, g), v, names[9], fin) && fin.Bound? && fin.v.n == 0
  {
    v, offset := MemberRead(names, g, env, b, 2, 0);
    var v', fin' := MemberRead(names, g, env, b, 2, 9);
    fin := fin';
    TwoBytes(b[..2]);
    JoinIs(0x50, 256, 0x02);
    FirstAndLast(FromBE(b[..2]));
  }

  lemma {:induction false} FirstAndLast(w: nat)
    requires w == 0x5002
    ensures w / Pow2(12) % Pow2(4) == 5 && w / Pow2(0) % Pow2(1) == 0
  {
    assert Pow2(4) == 16;
    Pow2Add(4, 8);
    Pow2Add(4, 4);
  }

  // ----- what agrees with its description keeps names in their types

  /** Derived values have a C type. */
  predicate WellTyped(op: Op) {
    op.Derived? ==> IsCType(op.ty)
  }

  lemma {:induction false} Powers()
    ensures Pow256(1) == 0x100 && Pow256(2) == 0x1_0000 && Pow256(3) == 0x100_0000
    ensures Pow256(4) == 0x1_0000_0000 && Pow256(8) == 0x1_0000_0000_0000_0000
  {
    assert Pow256(1) == 0x100;
    Pow256Add(1, 1);
    Pow256Add(1, 2);
    Pow256Add(2, 2);
    Pow256Add(4, 4);
  }

  lemma {:induction false} PrefixBelow(t: PV.Table, n: nat)
    requires PV.Valid(t) && PV.Serialize(t, n).Ok?
    ensures n < Pow256(8)
  {
    var i := PV.Fit(t.branches, n);
    Pow256IsPow2(8);
    assert PV.ValidBranch(t.prefixBits, t.branches[i]);
    Pow2Mono(t.branches[i].valueBits, 64);
  }

  lemma {:induction false} ScalarTyped(s: S.Scalar, n: int)
    requires S.InRange(s, n)
    ensures TypedBinding(Bound(CVal(S.TypeOf(s), n)))
  {
    Powers();
    match s
    case Prim(w, _, k) =>
    case Prefix(t) => PrefixBelow(t, n);
    case Cont(f) =>
  }

  lemma {:induction false} MemberTyped(width: nat, n: nat)
    requires width <= 64 && n < Pow2(width)
    ensures TypedBinding(Bound(CVal(MemberType(width), n)))
  {
    var ty := MemberType(width);
    SpanIs(ty);
    Pow2Mono(width, ty.bits);
  }

  lemma {:induction false} BindTyped(env: Env, name: string, b: Binding)
    requires Typed(env) && TypedBinding(b)
    ensures Typed(Bind(env, name, b))
  {
  }

  lemma {:induction false} MembersTyped(env: Env, names: seq<string>, ms: seq<BG.Member>, ns: seq<nat>)
    requires Typed(env) && BG.Fits(ms, ns) && forall i :: 0 <= i < |ms| ==> ms[i].width <= 64
    ensures Typed(BindMembers(env, names, ms, Nums(ns)))
    decreases |names|
  {
    if names != [] && ms != [] && ns != [] {
      MemberTyped(ms[0].width, ns[0]);
      BindTyped(env, names[0], Bound(CVal(MemberType(ms[0].width), ns[0])));
      assert BG.Fits(ms[1..], ns[1..]);
      MembersTyped(Bind(env, names[0], Bound(CVal(MemberType(ms[0].width), ns[0]))), names[1..], ms[1..], ns[1..]);
    }
  }

  lemma {:induction false} ExtendTyped(env: Env, op: Op, v: Val, after: nat)
    requires Typed(env) && WellTyped(op) && FitsOp(op, env, v, after)
    ensures Typed(Extend(env, op, v))
  {
    match op
    case Field(x, Scalar(s)) => ScalarTyped(s, v.n); BindTyped(env, x, Bound(CVal(S.TypeOf(s), v.n)));
    case When(x, _, Scalar(s)) =>
      if v.Absent? {
        BindTyped(env, x, Missing);
      } else {
        ScalarTyped(s, v.v.n);
        BindTyped(env, x, Bound(CVal(S.TypeOf(s), v.v.n)));
      }
    case Derived(x, ty, e) =>
      ConvertIs(ty, Eval(e, env).value);
      BindTyped(env, x, Bound(CVal(ty, v.n)));
    case BitFields(names, g) => MemberWidths(g); MembersTyped(env, names, g.members, NatsOf(v.vs));
    case _ =>
  }

  /** In a value that agrees with its description every name holds a value of its type, so that by EvalTyped
      every expression has a value of its type or none. */
  lemma {:induction false} AgreeingTyped(ops: seq<Op>, env: Env, vs: seq<Val>, after: nat)
    requires Typed(env) && FitsOps(ops, env, vs, after) && forall i :: 0 <= i < |ops| ==> WellTyped(ops[i])
    ensures Typed(ExtendAll(env, ops, vs))
    decreases |ops|
  {
    if ops != [] {
      ExtendTyped(env, ops[0], vs[0], Width(SerOps(ops[1..], vs[1..])) + after);
      AgreeingTyped(ops[1..], Extend(env, ops[0], vs[0]), vs[1..], after);
    }
  }
}

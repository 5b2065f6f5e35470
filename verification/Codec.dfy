/** The meaning of the emitted parse, serialize and serialized_len code of a protocol description.

    A type is the code emitted for a packet, frame, capsule or varint; an op is the code emitted for one
    item of a scope, in order. A struct value holds one entry per op. Names only matter to expressions,
    which see the fields bound so far.

    The payload of a capsule has its own parse code in C, made from the ordinary text by renaming the
    cursor: it reads a bit group again for each of its fields, and where the ordinary text asks how much
    remains, it asks the cursor around the scope. */
module Codec {
  import opened Bits
  import opened Bytes
  import opened Outcome
  import opened Expr
  import S = Scalars
  import BG = BitGroup

  type Group = g: BG.Group | BG.Valid(g)
    witness BG.Group(8, true, [BG.Member(0, 8)])

  datatype Pattern = Exact(value: int) | Range(start: int, end: int) | Wildcard

  datatype Variant = Variant(pattern: Pattern, ops: seq<Op>)

  /** What a capsule's code depends on. The C payload code is not the ordinary one, and is followed by a
      check that the scope is used up; the Rust payload code is the ordinary one, without a check. */
  datatype Backend = C | Rust

  datatype Type =
    | Scalar(s: S.Scalar)
    | Packet(ops: seq<Op>)
    | Frame(tag: S.Scalar, tagName: string, variants: seq<Variant>)
    | Capsule(header: seq<Op>, within: Expr, selector: Expr, variants: seq<Variant>, backend: Backend)

  datatype BytesSpec =
    | Fixed(size: nat)
    | Length(len: Expr)
    | Remaining
    | LengthOrRemaining(field: string)

  /** `BitFields` is the first field of a bit group, with the group's code; `Later` is a further field of
      the group of those names, for which nothing more is emitted in ordinary code. */
  datatype Op =
    | Field(name: string, t: Type)
    | BitFields(names: seq<string>, group: Group)
    | Later(names: seq<string>, group: Group)
    | Raw(name: string, spec: BytesSpec)
    | When(name: string, cond: Expr, t: Type)
    | Array(name: string, t: Type, count: Expr, max: nat)
    | Fill(name: string, t: Type, within: Option<Expr>, max: nat)
    | Derived(name: string, ty: CType, expr: Expr)
    | Require(expr: Expr)

  datatype Val =
    | Num(n: int)
    | Data(b: bytes)
    | Absent
    | Present(v: Val)
    | Struct(vs: seq<Val>)
    | Elems(xs: seq<Val>)
    | Tagged(tag: int, alt: nat, body: seq<Val>)
    | Encapsulated(header: seq<Val>, alt: nat, body: seq<Val>)
    | Checked

  // ----- names in scope

  function Bind(env: Env, name: string, b: Binding): Env {
    env.(local := env.local[name := b])
  }

  function MemberType(width: nat): CType {
    CType(if width <= 8 then 8 else if width <= 16 then 16 else if width <= 32 then 32 else 64, false)
  }

  function BindMembers(env: Env, names: seq<string>, ms: seq<BG.Member>, vs: seq<Val>): Env
    decreases |names|
  {
    if names == [] || ms == [] || vs == [] then env
    else
      var e := if vs[0].Num? then Bind(env, names[0], Bound(CVal(MemberType(ms[0].width), vs[0].n))) else env;
      BindMembers(e, names[1..], ms[1..], vs[1..])
  }

  /** What an op's value adds to the names later expressions can use. */
  function Extend(env: Env, op: Op, v: Val): Env {
    match op
    case Field(name, Scalar(s)) => if v.Num? then Bind(env, name, Bound(CVal(S.TypeOf(s), v.n))) else env
    case BitFields(names, g) => if v.Struct? then BindMembers(env, names, g.members, v.vs) else env
    case Later(names, g) => if v.Struct? then BindMembers(env, names, g.members, v.vs) else env
    case When(name, _, Scalar(s)) =>
      if v.Present? && v.v.Num? then Bind(env, name, Bound(CVal(S.TypeOf(s), v.v.n)))
      else if v.Absent? then Bind(env, name, Missing)
      else env
    case Derived(name, ty, _) => if v.Num? then Bind(env, name, Bound(CVal(ty, v.n))) else env
    case _ => env
  }

  function ExtendAll(env: Env, ops: seq<Op>, vs: seq<Val>): Env
    decreases |ops|
  {
    if ops == [] || vs == [] then env else ExtendAll(Extend(env, ops[0], vs[0]), ops[1..], vs[1..])
  }

  function FrameEnv(tag: S.Scalar, tagName: string, n: int): Env {
    Env(map[tagName := Bound(CVal(S.TypeOf(tag), n))], map[])
  }

  function PayloadEnv(header: Env): Env {
    Env(header.local, map[])
  }

  predicate Matches(p: Pattern, tag: int) {
    match p
    case Exact(v) => tag == v
    case Range(lo, hi) => lo <= tag <= hi
    case Wildcard => true
  }

  /** Index of the first matching variant, or the number of variants. */
  function Select(variants: seq<Variant>, tag: int): (i: nat)
    ensures i <= |variants|
  {
    if variants == [] then 0
    else if Matches(variants[0].pattern, tag) then 0
    else 1 + Select(variants[1..], tag)
  }

  // ----- parse

  /** Bytes of the integer a bit group travels in. */
  function ContainerBytes(totalBits: nat): nat {
    if totalBits <= 8 then 1 else if totalBits <= 16 then 2 else if totalBits <= 32 then 4 else 8
  }

  function Nums(ns: seq<nat>): (vs: seq<Val>)
    ensures |vs| == |ns|
  {
    if ns == [] then [] else [Num(ns[0])] + Nums(ns[1..])
  }

  function Take(n: Option<nat>, b: bytes): Result<(bytes, bytes)> {
    match n
    case None => Err(Undefined)
    case Some(k) => if |b| < k then Err(ShortBuffer) else Ok((b[..k], b[k..]))
  }

  function ParseGroup(g: Group, b: bytes): Result<(Val, bytes)> {
    var (w, r) :- Take(Some(ContainerBytes(g.totalBits)), b);
    Ok((Struct(Nums(BG.Unpack(g.members, if g.bigEndian then FromBE(w) else FromLE(w)))), r))
  }

  function ParseRaw(spec: BytesSpec, env: Env, b: bytes): Result<(Val, bytes)> {
    match spec
    case Fixed(n) => var (d, r) :- Take(Some(n), b); Ok((Data(d), r))
    case Length(e) => var (d, r) :- Take(Size(e, env), b); Ok((Data(d), r))
    case Remaining => Ok((Data(b), []))
    case LengthOrRemaining(f) =>
      match env.Lookup(f)
      case Some(Missing) => Ok((Data(b), []))
      case _ => var (d, r) :- Take(Size(Ref(f), env), b); Ok((Data(d), r))
  }

  function ParseType(t: Type, b: bytes): Result<(Val, bytes)>
    decreases t, 0
  {
    match t
    case Scalar(s) =>
      var (n, r) :- S.Parse(s, b); Ok((Num(n), r))
    case Packet(ops) =>
      var (vs, r) :- ParseOps(ops, NO_NAMES, b); Ok((Struct(vs), r))
    case Frame(tag, tagName, variants) =>
      var (n, r) :- S.Parse(tag, b);
      var i := Select(variants, n);
      if i == |variants| then Err(InvalidTag)
      else
        var (vs, r') :- ParseOps(variants[i].ops, FrameEnv(tag, tagName, n), r);
        Ok((Tagged(n, i, vs), r'))
    case Capsule(header, within, selector, variants, backend) =>
      var (hs, r) :- ParseOps(header, NO_NAMES, b);
      var env := ExtendAll(NO_NAMES, header, hs);
      var (scope, rest) :- Take(Size(within, env), r);
      match Eval(selector, env)
      case None => Err(Undefined)
      case Some(tag) =>
        var i := Select(variants, tag.n);
        if i == |variants| then Err(InvalidTag)
        else
          var (vs, unused) :-
            if backend.C? then ParsePayload(variants[i].ops, PayloadEnv(env), scope, rest)
            else ParseOps(variants[i].ops, PayloadEnv(env), scope);
          if backend.C? && unused != [] then Err(TrailingData) else Ok((Encapsulated(hs, i, vs), rest))
  }

  function ParseOps(ops: seq<Op>, env: Env, b: bytes): Result<(seq<Val>, bytes)>
    decreases ops, 0
  {
    if ops == [] then Ok(([], b))
    else
      var (v, r) :- ParseOp(ops[0], env, b);
      var (vs, r') :- ParseOps(ops[1..], Extend(env, ops[0], v), r);
      Ok(([v] + vs, r'))
  }

  function ParseOp(op: Op, env: Env, b: bytes): Result<(Val, bytes)>
    decreases op, 0
  {
    match op
    case Field(_, t) => ParseType(t, b)
    case BitFields(_, g) => ParseGroup(g, b)
    case Later(_, _) => Ok((Checked, b))
    case Raw(_, spec) => ParseRaw(spec, env, b)
    case When(_, cond, t) =>
      (match Truth(cond, env)
       case None => Err(Undefined)
       case Some(false) => Ok((Absent, b))
       case Some(true) => var (v, r) :- ParseType(t, b); Ok((Present(v), r)))
    case Array(_, t, count, max) =>
      (match Count(count, env)
       case None => Err(Undefined)
       case Some(n) => if n > max then Err(Capacity) else var (xs, r) :- ParseCount(t, n, b); Ok((Elems(xs), r)))
    case Fill(_, t, None, max) =>
      var xs :- ParseFill(t, max, b); Ok((Elems(xs), []))
    case Fill(_, t, Some(within), max) =>
      var (scope, rest) :- Take(Size(within, env), b);
      var xs :- ParseFill(t, max, scope); Ok((Elems(xs), rest))
    case Derived(_, ty, e) =>
      (match Eval(e, env) case None => Err(Undefined) case Some(v) => Ok((Num(Convert(ty, v).n), b)))
    case Require(e) =>
      match Truth(e, env)
      case None => Err(Undefined)
      case Some(holds) => if holds then Ok((Checked, b)) else Err(Constraint)
  }

  /** `for _i in 0..n`. */
  function ParseCount(t: Type, n: nat, b: bytes): Result<(seq<Val>, bytes)>
    decreases t, 1, n
  {
    if n == 0 then Ok(([], b))
    else
      var (x, r) :- ParseType(t, b);
      var (xs, r') :- ParseCount(t, n - 1, r);
      Ok(([x] + xs, r'))
  }

  /** `while remaining > 0`, with room for `room` more elements. */
  function ParseFill(t: Type, room: nat, b: bytes): Result<seq<Val>>
    decreases t, 1, room
  {
    if b == [] then Ok([])
    else if room == 0 then Err(Capacity)
    else
      var (x, r) :- ParseType(t, b);
      var xs :- ParseFill(t, room - 1, r);
      Ok([x] + xs)
  }

  // ----- parse the payload of a C capsule

  /** The payload in its scope `b`, with `rest` behind it in the enclosing cursor. */
  function ParsePayload(ops: seq<Op>, env: Env, b: bytes, rest: bytes): Result<(seq<Val>, bytes)>
    decreases ops, 1
  {
    var (ws, r) :- RunPayload(ops, env, b, rest);
    Ok((Final(ops, ws), r))
  }

  /** One reading per item, a further field of a bit group being the group once more. */
  function RunPayload(ops: seq<Op>, env: Env, b: bytes, rest: bytes): Result<(seq<Val>, bytes)>
    decreases ops, 0
  {
    if ops == [] then Ok(([], b))
    else
      var (v, r) :- ParsePayloadOp(ops[0], env, b, rest);
      var (vs, r') :- RunPayload(ops[1..], Extend(env, ops[0], v), r, rest);
      Ok(([v] + vs, r'))
  }

  /** Bytes of an absent length start in the scope, are as many as remain behind it, and leave nothing of
      it; an array that fills the scope runs while bytes remain behind it. */
  function ParsePayloadOp(op: Op, env: Env, b: bytes, rest: bytes): Result<(Val, bytes)>
    decreases op, 1
  {
    match op
    case Later(_, g) => ParseGroup(g, b)
    case Raw(_, LengthOrRemaining(f)) =>
      if env.Lookup(f) == Some(Missing) then Ok((Data((b + rest)[..|rest|]), [])) else ParseOp(op, env, b)
    case Fill(_, t, None, max) =>
      if rest == [] then Ok((Elems([]), b)) else Err(EndlessFill(t, max, b))
    case _ => ParseOp(op, env, b)
  }

  /** The error that ends a loop whose condition stays true. */
  function EndlessFill(t: Type, room: nat, b: bytes): Error
    decreases t, 1, room
  {
    if room == 0 then Capacity
    else match ParseType(t, b) case Err(e) => e case Ok((_, r)) => EndlessFill(t, room - 1, r)
  }

  /** The last reading of a bit group, `v` being the one before `ops`. */
  function LastReading(names: seq<string>, g: Group, v: Val, ops: seq<Op>, ws: seq<Val>): Val
    decreases |ops|
  {
    if ops == [] || ws == [] then v
    else LastReading(names, g, if ops[0] == Later(names, g) then ws[0] else v, ops[1..], ws[1..])
  }

  /** The struct after all readings: each reads every field of its group over. */
  function Final(ops: seq<Op>, ws: seq<Val>): (vs: seq<Val>)
    ensures |vs| <= |ops|
    decreases |ops|
  {
    if ops == [] || ws == [] then []
    else
      var v := match ops[0]
               case BitFields(names, g) => LastReading(names, g, ws[0], ops[1..], ws[1..])
               case Later(_, _) => Checked
               case _ => ws[0];
      [v] + Final(ops[1..], ws[1..])
  }

  // ----- serialize

  function Append(a: Option<bytes>, b: Option<bytes>): Option<bytes> {
    if a.Some? && b.Some? then Some(a.value + b.value) else None
  }

  function NatsOf(vs: seq<Val>): (ns: seq<nat>)
    ensures |ns| == |vs|
  {
    if vs == [] then [] else [if vs[0].Num? && vs[0].n >= 0 then vs[0].n else 0] + NatsOf(vs[1..])
  }

  function SerGroup(g: Group, vs: seq<Val>): Option<bytes> {
    if |vs| != |g.members| then None
    else
      var w := BG.Pack(g.members, NatsOf(vs));
      var n := ContainerBytes(g.totalBits);
      Some(if g.bigEndian then ToBE(n, w) else ToLE(n, w))
  }

  /** The bytes written, or nothing for a varint overflow (or a value that is not of the type). */
  function SerType(t: Type, v: Val): Option<bytes>
    decreases t, 0
  {
    match (t, v)
    case (Scalar(s), Num(n)) =>
      (match S.Serialize(s, n) case Ok(e) => Some(e) case Err(_) => None)
    case (Packet(ops), Struct(vs)) => SerOps(ops, vs)
    case (Frame(tag, _, variants), Tagged(n, i, vs)) =>
      if i >= |variants| then None
      else
        (match S.Serialize(tag, n) case Ok(e) => Append(Some(e), SerOps(variants[i].ops, vs)) case Err(_) => None)
    case (Capsule(header, _, _, variants, _), Encapsulated(hs, i, vs)) =>
      if i >= |variants| then None else Append(SerOps(header, hs), SerOps(variants[i].ops, vs))
    case _ => None
  }

  function SerOps(ops: seq<Op>, vs: seq<Val>): Option<bytes>
    decreases ops, 0
  {
    if ops == [] then (if vs == [] then Some([]) else None)
    else if vs == [] then None
    else Append(SerOp(ops[0], vs[0]), SerOps(ops[1..], vs[1..]))
  }

  function SerOp(op: Op, v: Val): Option<bytes>
    decreases op, 0
  {
    match (op, v)
    case (Field(_, t), _) => SerType(t, v)
    case (BitFields(_, g), Struct(vs)) => SerGroup(g, vs)
    case (Later(_, _), Checked) => Some([])
    case (Raw(_, _), Data(d)) => Some(d)
    case (When(_, _, t), Absent) => Some([])
    case (When(_, _, t), Present(x)) => SerType(t, x)
    case (Array(_, t, _, _), Elems(xs)) => SerAll(t, xs)
    case (Fill(_, t, _, _), Elems(xs)) => SerAll(t, xs)
    case (Derived(_, _, _), Num(_)) => Some([])
    case (Require(_), Checked) => Some([])
    case _ => None
  }

  function SerAll(t: Type, xs: seq<Val>): Option<bytes>
    decreases t, 1, xs
  {
    if xs == [] then Some([]) else Append(SerType(t, xs[0]), SerAll(t, xs[1..]))
  }

  /** Length of what is written. */
  function Width(e: Option<bytes>): nat {
    if e.Some? then |e.value| else 0
  }

  // ----- values that agree with their description

  /** The value agrees with its type: ranges, lengths, counts, conditions, derived values, requires and
      scopes are as the expressions say. `after` is the number of bytes that follow in the buffer; what
      takes all remaining bytes must not be followed by any. */
  ghost predicate FitsType(t: Type, v: Val, after: nat)
    decreases t, 0
  {
    match (t, v)
    case (Scalar(s), Num(n)) => S.InRange(s, n)
    case (Packet(ops), Struct(vs)) => FitsOps(ops, NO_NAMES, vs, after)
    case (Frame(tag, tagName, variants), Tagged(n, i, vs)) =>
      && S.InRange(tag, n) && i == Select(variants, n) < |variants|
      && FitsOps(variants[i].ops, FrameEnv(tag, tagName, n), vs, after)
    case (Capsule(header, within, selector, variants, backend), Encapsulated(hs, i, vs)) =>
      var env := ExtendAll(NO_NAMES, header, hs);
      && i < |variants|
      && FitsOps(header, NO_NAMES, hs, Width(SerOps(variants[i].ops, vs)) + after)
      && Size(within, env) == Some(Width(SerOps(variants[i].ops, vs)))
      && Eval(selector, env).Some? && i == Select(variants, Eval(selector, env).value.n)
      && (if backend.C? then FitsPayload(variants[i].ops, PayloadEnv(env), vs, after)
          else FitsOps(variants[i].ops, PayloadEnv(env), vs, 0))
    case _ => false
  }

  ghost predicate FitsOps(ops: seq<Op>, env: Env, vs: seq<Val>, after: nat)
    decreases ops, 0
  {
    if ops == [] then vs == []
    else
      && vs != []
      && FitsOp(ops[0], env, vs[0], Width(SerOps(ops[1..], vs[1..])) + after)
      && FitsOps(ops[1..], Extend(env, ops[0], vs[0]), vs[1..], after)
  }

  ghost predicate FitsOp(op: Op, env: Env, v: Val, after: nat)
    decreases op, 0
  {
    match (op, v)
    case (Field(_, t), _) => FitsType(t, v, after)
    case (BitFields(_, g), Struct(vs)) => vs == Nums(NatsOf(vs)) && BG.Fits(g.members, NatsOf(vs))
    case (Later(_, _), Checked) => true
    case (Raw(_, spec), Data(d)) => FitsRaw(spec, env, |d|, after)
    case (When(_, cond, _), Absent) => Truth(cond, env) == Some(false)
    case (When(_, cond, t), Present(x)) => Truth(cond, env) == Some(true) && FitsType(t, x, after)
    case (Array(_, t, count, max), Elems(xs)) =>
      Count(count, env) == Some(|xs|) && |xs| <= max && FitsAll(t, xs, after)
    case (Fill(_, t, within, max), Elems(xs)) =>
      && |xs| <= max && FitsAll(t, xs, 0) && NoneEmpty(t, xs)
      && (if within.Some? then Size(within.value, env) == Some(Width(SerAll(t, xs))) else after == 0)
    case (Derived(_, ty, e), Num(n)) => Eval(e, env).Some? && n == Convert(ty, Eval(e, env).value).n
    case (Require(e), Checked) => Truth(e, env) == Some(true)
    case _ => false
  }

  /** The same for the payload of a C capsule, with `outer` bytes behind its scope. */
  ghost predicate FitsPayload(ops: seq<Op>, env: Env, vs: seq<Val>, outer: nat)
    decreases ops, 0
  {
    if ops == [] then vs == []
    else
      && vs != []
      && FitsPayloadOp(ops[0], env, vs[0], Width(SerOps(ops[1..], vs[1..])), outer)
      && FitsPayload(ops[1..], Extend(env, ops[0], vs[0]), vs[1..], outer)
  }

  ghost predicate FitsPayloadOp(op: Op, env: Env, v: Val, after: nat, outer: nat)
    decreases op, 1
  {
    match op
    case Later(_, _) => false
    case Raw(_, LengthOrRemaining(f)) =>
      if env.Lookup(f) == Some(Missing) then v.Data? && after == 0 && |v.b| == outer else FitsOp(op, env, v, after)
    case Fill(_, _, None, _) => v == Elems([]) && outer == 0
    case _ => FitsOp(op, env, v, after)
  }

  predicate FitsRaw(spec: BytesSpec, env: Env, len: nat, after: nat) {
    match spec
    case Fixed(n) => len == n
    case Length(e) => Size(e, env) == Some(len)
    case Remaining => after == 0
    case LengthOrRemaining(f) =>
      if env.Lookup(f) == Some(Missing) then after == 0 else Size(Ref(f), env) == Some(len)
  }

  ghost predicate FitsAll(t: Type, xs: seq<Val>, after: nat)
    decreases t, 1, xs
  {
    xs == [] || (FitsType(t, xs[0], Width(SerAll(t, xs[1..])) + after) && FitsAll(t, xs[1..], after))
  }

  /** Every element is written in some bytes. */
  predicate NoneEmpty(t: Type, xs: seq<Val>)
    decreases t, 1, xs
  {
    xs == [] || (Width(SerType(t, xs[0])) > 0 && NoneEmpty(t, xs[1..]))
  }
}

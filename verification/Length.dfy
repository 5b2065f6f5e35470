/** The emitted serialized-length code against the bytes actually written. */
module Length {
  import opened Bytes
  import opened Outcome
  import opened Expr
  import opened Codec
  import opened RoundTrip
  import opened Scopes
  import opened Stability
  import S = Scalars
  import BG = BitGroup

  /** Bytes the length code counts for a bit group: its bits, rounded up. */
  function GroupLen(totalBits: nat): nat {
    (totalBits + 7) / 8
  }

  function LenType(t: Type, v: Val): nat
    decreases t, 0
  {
    match (t, v)
    case (Scalar(s), Num(n)) => S.WireSize(s, n)
    case (Packet(ops), Struct(vs)) => LenOps(ops, vs)
    case (Frame(tag, _, variants), Tagged(n, i, vs)) =>
      S.WireSize(tag, n) + if i < |variants| then LenOps(variants[i].ops, vs) else 0
    case (Capsule(header, _, _, variants, _), Encapsulated(hs, i, vs)) =>
      LenOps(header, hs) + if i < |variants| then LenOps(variants[i].ops, vs) else 0
    case _ => 0
  }

  function LenOps(ops: seq<Op>, vs: seq<Val>): nat
    decreases ops, 0
  {
    if ops == [] || vs == [] then 0 else LenOp(ops[0], vs[0]) + LenOps(ops[1..], vs[1..])
  }

  function LenOp(op: Op, v: Val): nat
    decreases op, 0
  {
    match (op, v)
    case (Field(_, t), _) => LenType(t, v)
    case (BitFields(_, g), _) => GroupLen(g.totalBits)
    case (Raw(_, _), Data(d)) => |d|
    case (When(_, _, t), Present(x)) => LenType(t, x)
    case (Array(_, t, _, _), Elems(xs)) => LenAll(t, xs)
    case (Fill(_, t, _, _), Elems(xs)) => LenAll(t, xs)
    case _ => 0
  }

  function LenAll(t: Type, xs: seq<Val>): nat
    decreases t, 1, xs
  {
    if xs == [] then 0 else LenType(t, xs[0]) + LenAll(t, xs[1..])
  }

  /** No bit group of the value travels in a wider integer than its bits need. */
  predicate NoWideGroup(t: Type, v: Val)
    decreases t, 0
  {
    match (t, v)
    case (Packet(ops), Struct(vs)) => NoneWide(ops, vs)
    case (Frame(_, _, variants), Tagged(_, i, vs)) => i < |variants| ==> NoneWide(variants[i].ops, vs)
    case (Capsule(header, _, _, variants, _), Encapsulated(hs, i, vs)) =>
      NoneWide(header, hs) && (i < |variants| ==> NoneWide(variants[i].ops, vs))
    case _ => true
  }

  predicate NoneWide(ops: seq<Op>, vs: seq<Val>)
    decreases ops, 0
  {
    ops == [] || vs == [] || (NotWide(ops[0], vs[0]) && NoneWide(ops[1..], vs[1..]))
  }

  predicate NotWide(op: Op, v: Val)
    decreases op, 0
  {
    match (op, v)
    case (Field(_, t), _) => NoWideGroup(t, v)
    case (BitFields(_, g), _) => g.totalBits in {8, 16, 32, 64}
    case (When(_, _, t), Present(x)) => NoWideGroup(t, x)
    case (Array(_, t, _, _), Elems(xs)) => AllNotWide(t, xs)
    case (Fill(_, t, _, _), Elems(xs)) => AllNotWide(t, xs)
    case _ => true
  }

  predicate AllNotWide(t: Type, xs: seq<Val>)
    decreases t, 1, xs
  {
    xs == [] || (NoWideGroup(t, xs[0]) && AllNotWide(t, xs[1..]))
  }

  /** Which group sizes are counted exactly. */
  lemma {:induction false} GroupLenExact(g: Group)
    ensures GroupLen(g.totalBits) <= ContainerBytes(g.totalBits)
    ensures GroupLen(g.totalBits) == ContainerBytes(g.totalBits) <==> g.totalBits in {8, 16, 32, 64}
  {
    assert BG.Valid(g);
  }

  /** Never more than is written, and as much exactly when `exact`. */
  predicate Counts(len: nat, e: Option<bytes>, exact: bool) {
    e.Some? ==> len <= |e.value| && (len == |e.value| <==> exact)
  }

  lemma {:induction false} ScalarCounts(s: S.Scalar, n: int)
    ensures S.Serialize(s, n).Ok? ==> |S.Serialize(s, n).value| == S.WireSize(s, n)
  {
  }

  /** The counted length of a value is the length written exactly when none of its bit groups travels in a
      wider integer than its bits need; otherwise it is less. */
  lemma {:induction false} LenTypeCounts(t: Type, v: Val)
    ensures Counts(LenType(t, v), SerType(t, v), NoWideGroup(t, v))
    decreases t, 0
  {
    match (t, v)
    case (Scalar(s), Num(n)) => ScalarCounts(s, n);
    case (Packet(ops), Struct(vs)) => LenOpsCounts(ops, vs);
    case (Frame(tag, _, variants), Tagged(n, i, vs)) =>
      ScalarCounts(tag, n);
      if i < |variants| {
        LenOpsCounts(variants[i].ops, vs);
      }
    case (Capsule(header, _, _, variants, _), Encapsulated(hs, i, vs)) =>
      LenOpsCounts(header, hs);
      if i < |variants| {
        LenOpsCounts(variants[i].ops, vs);
      }
    case _ =>
  }

  lemma {:induction false} LenOpsCounts(ops: seq<Op>, vs: seq<Val>)
    ensures Counts(LenOps(ops, vs), SerOps(ops, vs), NoneWide(ops, vs))
    decreases ops, 0
  {
    if ops != [] && vs != [] {
      LenOpCounts(ops[0], vs[0]);
      LenOpsCounts(ops[1..], vs[1..]);
    }
  }

  lemma {:induction false} LenOpCounts(op: Op, v: Val)
    ensures Counts(LenOp(op, v), SerOp(op, v), NotWide(op, v))
    decreases op, 0
  {
    match (op, v)
    case (Field(_, t), _) => LenTypeCounts(t, v);
    case (BitFields(_, g), Struct(vs)) => GroupLenExact(g);
    case (When(_, _, t), Present(x)) => LenTypeCounts(t, x);
    case (Array(_, t, _, _), Elems(xs)) => LenAllCounts(t, xs);
    case (Fill(_, t, _, _), Elems(xs)) => LenAllCounts(t, xs);
    case _ =>
  }

  lemma {:induction false} LenAllCounts(t: Type, xs: seq<Val>)
    ensures Counts(LenAll(t, xs), SerAll(t, xs), AllNotWide(t, xs))
    decreases t, 1, xs
  {
    if xs != [] {
      LenTypeCounts(t, xs[0]);
      LenAllCounts(t, xs[1..]);
    }
  }

  /** For a parsed value no more is counted than is written, and no more written than was read; the three are
      the same where the description keeps lengths and no group is wider than its bits. */
  lemma {:induction false} ParsedLength(t: Type, b: bytes)
    requires Contained(t) && ParseType(t, b).Ok?
    ensures var (v, r) := ParseType(t, b).value;
            && SerType(t, v).Some? && LenType(t, v) <= |SerType(t, v).value| <= |b| - |r|
            && (LenType(t, v) == |SerType(t, v).value| <==> NoWideGroup(t, v))
            && (KeepsLength(t) ==> (LenType(t, v) == |b| - |r| <==> NoWideGroup(t, v)))
  {
    ParseTypeSound(t, b);
    var (v, r) := ParseType(t, b).value;
    RewriteEnds(b, r, SerType(t, v), TypeGrade(t, v));
    LenTypeCounts(t, v);
  }

  /** A buffer of the counted size is too small for a packet of one group, exactly when
      the group travels in a wider integer than its bits need. */
  lemma {:induction false} WideGroupUndercounted(names: seq<string>, g: Group, vs: seq<Val>)
    requires vs == Nums(NatsOf(vs)) && BG.Fits(g.members, NatsOf(vs))
    ensures var t := Packet([BitFields(names, g)]);
            var v := Struct([Struct(vs)]);
            SerType(t, v).Some? && (LenType(t, v) < |SerType(t, v).value| <==> g.totalBits !in {8, 16, 32, 64})
  {
    GroupRoundTrip(g, vs, []);
    GroupLenExact(g);
    var ops, body := [BitFields(names, g)], [Struct(vs)];
    assert SerOps(ops[1..], body[1..]) == Some([]);
    assert SerOps(ops, body) == Append(SerOp(ops[0], body[0]), SerOps(ops[1..], body[1..]));
    assert LenOps(ops, body) == GroupLen(g.totalBits) + LenOps(ops[1..], body[1..]);
  }

  // ----- the emitted length code

  /** `len +=` for each item in turn. */
  method AddItems(ops: seq<Op>, vs: seq<Val>) returns (len: nat)
    ensures len == LenOps(ops, vs)
    decreases ops, 1
  {
    len := 0;
    var n := if |ops| <= |vs| then |ops| else |vs|;
    assert ops[0..] == ops && vs[0..] == vs;
    for i := 0 to n
      invariant len + LenOps(ops[i..], vs[i..]) == LenOps(ops, vs)
    {
      NextItem(ops, vs, i);
      var more := AddItem(ops[i], vs[i]);
      len := len + more;
    }
  }

  lemma {:induction false} NextItem(ops: seq<Op>, vs: seq<Val>, i: nat)
    requires i < |ops| && i < |vs|
    ensures LenOps(ops[i..], vs[i..]) == LenOp(ops[i], vs[i]) + LenOps(ops[i + 1..], vs[i + 1..])
  {
    assert ops[i..][1..] == ops[i + 1..] && vs[i..][1..] == vs[i + 1..];
  }

  method AddItem(op: Op, v: Val) returns (len: nat)
    ensures len == LenOp(op, v)
    decreases op, 0
  {
    match (op, v)
    case (Field(_, t), _) => len := SerializedLen(t, v);
    case (BitFields(_, g), _) => len := GroupLen(g.totalBits);
    case (Raw(_, _), Data(d)) => len := |d|;
    case (When(_, _, t), Present(x)) => len := SerializedLen(t, x);
    case (Array(_, t, _, _), Elems(xs)) => len := AddElements(t, xs);
    case (Fill(_, t, _, _), Elems(xs)) => len := AddElements(t, xs);
    case _ => len := 0;
  }

  method AddElements(t: Type, xs: seq<Val>) returns (len: nat)
    ensures len == LenAll(t, xs)
    decreases t, 1
  {
    len := 0;
    assert xs[0..] == xs;
    for i := 0 to |xs|
      invariant len + LenAll(t, xs[i..]) == LenAll(t, xs)
    {
      NextElement(t, xs, i);
      var more := SerializedLen(t, xs[i]);
      len := len + more;
    }
  }

  lemma {:induction false} NextElement(t: Type, xs: seq<Val>, i: nat)
    requires i < |xs|
    ensures LenAll(t, xs[i..]) == LenType(t, xs[i]) + LenAll(t, xs[i + 1..])
  {
    assert xs[i..][1..] == xs[i + 1..];
  }

  method SerializedLen(t: Type, v: Val) returns (len: nat)
    ensures len == LenType(t, v)
    decreases t, 0
  {
    match (t, v)
    case (Scalar(s), Num(n)) => len := S.WireSize(s, n);
    case (Packet(ops), Struct(vs)) => len := AddItems(ops, vs);
    case (Frame(tag, _, variants), Tagged(n, i, vs)) =>
      len := S.WireSize(tag, n);
      if i < |variants| {
        var body := AddItems(variants[i].ops, vs);
        len := len + body;
      }
    case (Capsule(header, _, _, variants, _), Encapsulated(hs, i, vs)) =>
      len := AddItems(header, hs);
      if i < |variants| {
        var body := AddItems(variants[i].ops, vs);
        len := len + body;
      }
    case _ => len := 0;
  }
}

/** Generated serialize code, statement by statement, on a writer. */
module SerializeCode {
  import opened Bits
  import opened Bytes
  import opened Outcome
  import opened Expr
  import opened Codec
  import opened Runtime
  import S = Scalars
  import BG = BitGroup
  import VarIntCode

  /** Success writes exactly the bytes `e` at `start` of a buffer that held `whole`; failure means that
      there is nothing to write or no room for it, and keeps what was there before `start`. */
  ghost predicate Emitted(w: Writer, whole: bytes, start: nat, e: Option<bytes>, r: Result<()>)
    reads w, w.buf
  {
    match r
    case Ok(_) => e.Some? && start + |e.value| <= |whole| && Wrote(w, whole, start, e.value)
    case Err(error) =>
      && (e.Some? ==> error == ShortBuffer && start + |e.value| > |whole|)
      && Kept(w, whole, start)
  }

  /** What is emitted after `done` extends it. */
  lemma {:induction false} EmittedAfter(w: Writer, whole: bytes, start: nat, done: bytes, e: Option<bytes>, r: Result<()>)
    requires start + |done| <= |whole|
    requires Emitted(w, Splice(whole, start, done), start + |done|, e, r)
    ensures Emitted(w, whole, start, Append(Some(done), e), r)
  {
    if r.Ok? {
      SpliceTwice(whole, start, done, e.value);
    } else {
      var whole' := Splice(whole, start, done);
      assert w.buf[..start] == w.buf[..start + |done|][..start];
      assert whole'[..start + |done|][..start] == whole[..start];
    }
  }

  /** A failure of the first part is a failure of the whole. */
  lemma {:induction false} EmittedBefore(w: Writer, whole: bytes, start: nat, e: Option<bytes>, r: Result<()>, rest: Option<bytes>)
    requires r.Err? && Emitted(w, whole, start, e, r)
    ensures Emitted(w, whole, start, Append(e, rest), r)
  {
  }

  lemma {:induction false} AppendAssoc(a: bytes, b: Option<bytes>, c: Option<bytes>)
    ensures Append(Some(a), Append(b, c)) == Append(Append(Some(a), b), c)
    ensures Append(Some([]), b) == b && Append(Some(a), Some([])) == Some(a)
  {
    if b.Some? && c.Some? {
      assert a + (b.value + c.value) == a + b.value + c.value;
    }
    assert a + [] == a && (b.Some? ==> [] + b.value == b.value);
  }

  method WriteAll(e: bytes, w: Writer) returns (r: Result<()>)
    requires w.Valid()
    modifies w, w.buf
    ensures Emitted(w, old(w.buf[..]), old(w.pos), Some(e), r)
  {
    r := w.Write(e);
  }

  method WriteNothing(w: Writer) returns (r: Result<()>)
    requires w.Valid()
    modifies {}
    ensures Emitted(w, old(w.buf[..]), old(w.pos), Some([]), r)
  {
    SpliceNothing(w.buf[..], w.pos);
    r := Ok(());
  }

  function ScalarBytes(s: S.Scalar, n: int): Option<bytes> {
    match S.Serialize(s, n) case Ok(e) => Some(e) case Err(_) => None
  }

  method SerializeScalar(s: S.Scalar, n: int, w: Writer) returns (r: Result<()>)
    requires w.Valid()
    modifies w, w.buf
    ensures Emitted(w, old(w.buf[..]), old(w.pos), ScalarBytes(s, n), r)
  {
    match s
    case Prim(width, big, _) =>
      r := w.WriteUint(width, big, S.ToRaw(width, n));
    case Prefix(t) =>
      if n < 0 {
        return Err(Overflow);
      }
      PV_Size(t, n);
      r := VarIntCode.SerializePrefix(t, n, w);
    case Cont(f) =>
      if n < 0 {
        return Err(Overflow);
      }
      if f.bigEndian {
        r := VarIntCode.SerializeHighFirst(f, n, w);
      } else {
        r := VarIntCode.SerializeLowFirst(f, n, w);
      }
  }

  lemma {:induction false} PV_Size(t: S.PV.Table, n: nat)
    requires S.PV.Valid(t)
    ensures S.PV.Serialize(t, n).Ok? ==> |S.PV.Serialize(t, n).value| == S.PV.WireSize(t, n)
  {
  }

  /** The group's integer is or-ed together member by member, then written at once. */
  method SerializeBitGroup(g: Group, vs: seq<Val>, w: Writer) returns (r: Result<()>)
    requires w.Valid()
    modifies w, w.buf
    ensures Emitted(w, old(w.buf[..]), old(w.pos), SerGroup(g, vs), r)
  {
    if |vs| != |g.members| {
      return Err(Undefined);
    }
    var bg := BG.PackLoop(g, NatsOf(vs));
    r := w.WriteUint(ContainerBytes(g.totalBits), g.bigEndian, bg);
  }

  method Serialize(t: Type, v: Val, w: Writer) returns (r: Result<()>)
    requires w.Valid()
    modifies w, w.buf
    ensures Emitted(w, old(w.buf[..]), old(w.pos), SerType(t, v), r)
    decreases t, 0
  {
    match (t, v)
    case (Scalar(s), Num(n)) => r := SerializeScalar(s, n, w);
    case (Packet(ops), Struct(vs)) => r := SerializeItems(ops, vs, w);
    case (Frame(tag, _, variants), Tagged(n, i, vs)) =>
      if i >= |variants| {
        return Err(Undefined);
      }
      r := SerializeTagged(tag, n, variants[i].ops, vs, w);
    case (Capsule(header, _, _, variants, _), Encapsulated(hs, i, vs)) =>
      if i >= |variants| {
        return Err(Undefined);
      }
      ghost var whole, start := w.buf[..], w.pos;
      ghost var head, body := SerOps(header, hs), SerOps(variants[i].ops, vs);
      r := SerializeItems(header, hs, w);
      if r.Err? {
        EmittedBefore(w, whole, start, head, r, body);
        return;
      }
      r := SerializeItems(variants[i].ops, vs, w);
      EmittedAfter(w, whole, start, head.value, body, r);
    case _ => r := Err(Undefined);
  }

  method SerializeTagged(tag: S.Scalar, n: int, ops: seq<Op>, vs: seq<Val>, w: Writer) returns (r: Result<()>)
    requires w.Valid()
    modifies w, w.buf
    ensures Emitted(w, old(w.buf[..]), old(w.pos), Append(ScalarBytes(tag, n), SerOps(ops, vs)), r)
    decreases ops, 2
  {
    ghost var whole, start := w.buf[..], w.pos;
    ghost var head, body := ScalarBytes(tag, n), SerOps(ops, vs);
    r := SerializeScalar(tag, n, w);
    if r.Err? {
      EmittedBefore(w, whole, start, head, r, body);
      return;
    }
    r := SerializeItems(ops, vs, w);
    EmittedAfter(w, whole, start, head.value, body, r);
  }

  lemma {:induction false} SameLength(ops: seq<Op>, vs: seq<Val>)
    requires |ops| != |vs|
    ensures SerOps(ops, vs) == None
    decreases |ops|
  {
    if ops != [] && vs != [] {
      SameLength(ops[1..], vs[1..]);
    }
  }

  method SerializeItems(ops: seq<Op>, vs: seq<Val>, w: Writer) returns (r: Result<()>)
    requires w.Valid()
    modifies w, w.buf
    ensures Emitted(w, old(w.buf[..]), old(w.pos), SerOps(ops, vs), r)
    decreases ops, 1
  {
    ghost var whole, start := w.buf[..], w.pos;
    if |ops| != |vs| {
      SameLength(ops, vs);
      return Err(Undefined);
    }
    ghost var done: bytes := [];
    SpliceNothing(whole, start);
    assert ops[0..] == ops && vs[0..] == vs;
    AppendAssoc([], SerOps(ops, vs), None);
    for i := 0 to |ops|
      invariant start + |done| <= |whole| && Wrote(w, whole, start, done)
      invariant SerOps(ops, vs) == Append(Some(done), SerOps(ops[i..], vs[i..]))
    {
      ghost var e, rest := SerOp(ops[i], vs[i]), SerOps(ops[i + 1..], vs[i + 1..]);
      assert ops[i..][1..] == ops[i + 1..] && vs[i..][1..] == vs[i + 1..];
      AppendAssoc(done, e, rest);
      r := SerializeItem(ops[i], vs[i], w);
      EmittedAfter(w, whole, start, done, e, r);
      if r.Err? {
        EmittedBefore(w, whole, start, Append(Some(done), e), r, rest);
        return;
      }
      done := done + e.value;
    }
    AppendAssoc(done, None, None);
    r := Ok(());
  }

  method SerializeItem(op: Op, v: Val, w: Writer) returns (r: Result<()>)
    requires w.Valid()
    modifies w, w.buf
    ensures Emitted(w, old(w.buf[..]), old(w.pos), SerOp(op, v), r)
    decreases op, 0
  {
    match (op, v)
    case (Field(_, t), _) => r := Serialize(t, v, w);
    case (BitFields(_, g), Struct(vs)) => r := SerializeBitGroup(g, vs, w);
    case (Later(_, _), Checked) => r := WriteNothing(w);
    case (Raw(_, _), Data(d)) => r := WriteAll(d, w);
    case (When(_, _, t), Absent) => r := WriteNothing(w);
    case (When(_, _, t), Present(x)) => r := Serialize(t, x, w);
    case (Array(_, t, _, _), Elems(xs)) => r := SerializeElements(t, xs, w);
    case (Fill(_, t, _, _), Elems(xs)) => r := SerializeElements(t, xs, w);
    case (Derived(_, _, _), Num(_)) => r := WriteNothing(w);
    case (Require(_), Checked) => r := WriteNothing(w);
    case _ => r := Err(Undefined);
  }

  method SerializeElements(t: Type, xs: seq<Val>, w: Writer) returns (r: Result<()>)
    requires w.Valid()
    modifies w, w.buf
    ensures Emitted(w, old(w.buf[..]), old(w.pos), SerAll(t, xs), r)
    decreases t, 2
  {
    ghost var whole, start := w.buf[..], w.pos;
    ghost var done: bytes := [];
    SpliceNothing(whole, start);
    assert xs[0..] == xs;
    AppendAssoc([], SerAll(t, xs), None);
    for i := 0 to |xs|
      invariant start + |done| <= |whole| && Wrote(w, whole, start, done)
      invariant SerAll(t, xs) == Append(Some(done), SerAll(t, xs[i..]))
    {
      ghost var e, rest := SerType(t, xs[i]), SerAll(t, xs[i + 1..]);
      assert xs[i..][1..] == xs[i + 1..];
      AppendAssoc(done, e, rest);
      r := Serialize(t, xs[i], w);
      EmittedAfter(w, whole, start, done, e, r);
      if r.Err? {
        EmittedBefore(w, whole, start, Append(Some(done), e), r, rest);
        return;
      }
      done := done + e.value;
    }
    AppendAssoc(done, None, None);
    r := Ok(());
  }
}

/** Generated parse code, statement by statement, on a cursor. */
module ParseCode {
  import opened Bits
  import opened Bytes
  import opened Outcome
  import opened Expr
  import opened Codec
  import opened Runtime
  import S = Scalars
  import BG = BitGroup
  import VarIntCode

  /** What a finished read returned, with what it left on the cursor. */
  function Left<T>(r: Result<T>, rest: bytes): Result<(T, bytes)> {
    match r case Ok(v) => Ok((v, rest)) case Err(e) => Err(e)
  }

  method ParseScalar(s: S.Scalar, cur: Cursor) returns (r: Result<int>)
    requires cur.Valid()
    modifies cur
    ensures cur.Valid() && S.Parse(s, old(cur.Rest())) == Left(r, cur.Rest())
  {
    match s
    case Prim(w, big, k) =>
      var u :- cur.ReadUint(w, big);
      r := Ok(S.FromRaw(w, k, u));
    case Prefix(t) =>
      var v :- VarIntCode.ParsePrefix(t, cur);
      r := Ok(v);
    case Cont(f) =>
      var v;
      if f.bigEndian {
        v :- VarIntCode.ParseHighFirst(f, cur);
      } else {
        v :- VarIntCode.ParseLowFirst(f, cur);
      }
      r := Ok(v);
  }

  method ReadSized(n: Option<nat>, cur: Cursor) returns (r: Result<bytes>)
    requires cur.Valid()
    modifies cur
    ensures cur.Valid() && Take(n, old(cur.Rest())) == Left(r, cur.Rest())
  {
    match n
    case None => r := Err(Undefined);
    case Some(k) => r := cur.ReadBytes(k);
  }

  method ParseRawField(spec: BytesSpec, env: Env, cur: Cursor) returns (r: Result<Val>)
    requires cur.Valid()
    modifies cur
    ensures cur.Valid() && ParseRaw(spec, env, old(cur.Rest())) == Left(r, cur.Rest())
  {
    var d;
    match spec {
      case Fixed(n) => d :- ReadSized(Some(n), cur);
      case Length(e) => d :- ReadSized(Size(e, env), cur);
      case Remaining => d := cur.ReadRemaining();
      case LengthOrRemaining(f) =>
        if env.Lookup(f) == Some(Missing) {
          d := cur.ReadRemaining();
        } else {
          d :- ReadSized(Size(Ref(f), env), cur);
        }
    }
    r := Ok(Data(d));
  }

  lemma {:induction false} UnpackMember(ms: seq<BG.Member>, i: nat, w: nat, vs: seq<Val>)
    requires i < |ms|
    ensures vs + Nums(BG.Unpack(ms[i..], w)) == vs + [Num(BG.Extract(w, ms[i]))] + Nums(BG.Unpack(ms[i + 1..], w))
  {
    assert ms[i..][0] == ms[i] && ms[i..][1..] == ms[i + 1..];
    var ns := BG.Unpack(ms[i..], w);
    assert ns == [BG.Extract(w, ms[i])] + BG.Unpack(ms[i + 1..], w);
    assert ns[1..] == BG.Unpack(ms[i + 1..], w);
  }

  /** One read of the group's integer, then a shift and a mask for each member. */
  method ParseBitGroup(g: Group, cur: Cursor) returns (r: Result<Val>)
    requires cur.Valid()
    modifies cur
    ensures cur.Valid() && ParseGroup(g, old(cur.Rest())) == Left(r, cur.Rest())
  {
    var w :- cur.ReadUint(ContainerBytes(g.totalBits), g.bigEndian);
    var vs := UnpackMembers(g.members, w);
    r := Ok(Struct(vs));
  }

  method UnpackMembers(ms: seq<BG.Member>, w: nat) returns (vs: seq<Val>)
    ensures vs == Nums(BG.Unpack(ms, w))
  {
    vs := [];
    assert ms[0..] == ms;
    for i := 0 to |ms|
      invariant vs + Nums(BG.Unpack(ms[i..], w)) == Nums(BG.Unpack(ms, w))
    {
      UnpackMember(ms, i, w, vs);
      vs := vs + [Num(And(Quot(w, Pow2(ms[i].offset)), BG.Mask(ms[i].width)))];
    }
    assert ms[|ms|..] == [] && vs + [] == vs;
  }

  /** A result of the rest of a sequence, with the values before it put in front. */
  function Prepend(vs: seq<Val>, r: Result<(seq<Val>, bytes)>): (p: Result<(seq<Val>, bytes)>)
    ensures vs == [] ==> p == r
    ensures r.Ok? && r.value.0 == [] ==> p == Ok((vs, r.value.1))
  {
    match r
    case Ok((ws, b)) =>
      assert (vs == [] ==> vs + ws == ws) && (ws == [] ==> vs + ws == vs);
      Ok((vs + ws, b))
    case Err(e) => Err(e)
  }

  lemma {:induction false} PrependOp(ops: seq<Op>, env: Env, b: bytes, vs: seq<Val>)
    requires ops != []
    ensures Prepend(vs, ParseOps(ops, env, b)) ==
            match ParseOp(ops[0], env, b)
            case Ok((v, m)) => Prepend(vs + [v], ParseOps(ops[1..], Extend(env, ops[0], v), m))
            case Err(e) => Err(e)
  {
    match ParseOp(ops[0], env, b)
    case Ok((v, m)) =>
      match ParseOps(ops[1..], Extend(env, ops[0], v), m) {
        case Ok((ws, _)) => assert vs + ([v] + ws) == vs + [v] + ws;
        case Err(_) =>
      }
    case Err(_) =>
  }

  lemma {:induction false} PrependCount(t: Type, n: nat, b: bytes, xs: seq<Val>)
    requires n > 0
    ensures Prepend(xs, ParseCount(t, n, b)) ==
            match ParseType(t, b) case Ok((x, m)) => Prepend(xs + [x], ParseCount(t, n - 1, m)) case Err(e) => Err(e)
  {
    match ParseType(t, b)
    case Ok((x, m)) =>
      match ParseCount(t, n - 1, m) {
        case Ok((ws, _)) => assert xs + ([x] + ws) == xs + [x] + ws;
        case Err(_) =>
      }
    case Err(_) =>
  }

  function PrependAll(xs: seq<Val>, r: Result<seq<Val>>): (p: Result<seq<Val>>)
    ensures xs == [] ==> p == r
    ensures r == Ok([]) ==> p == Ok(xs)
  {
    match r
    case Ok(ws) =>
      assert (xs == [] ==> xs + ws == ws) && (ws == [] ==> xs + ws == xs);
      Ok(xs + ws)
    case Err(e) => Err(e)
  }

  lemma {:induction false} PrependFill(t: Type, room: nat, b: bytes, xs: seq<Val>)
    requires b != [] && room > 0
    ensures PrependAll(xs, ParseFill(t, room, b)) ==
            match ParseType(t, b) case Ok((x, m)) => PrependAll(xs + [x], ParseFill(t, room - 1, m)) case Err(e) => Err(e)
  {
    match ParseType(t, b)
    case Ok((x, m)) =>
      match ParseFill(t, room - 1, m) {
        case Ok(ws) => assert xs + ([x] + ws) == xs + [x] + ws;
        case Err(_) =>
      }
    case Err(_) =>
  }

  lemma {:induction false} ExtendAllSnoc(env: Env, ops: seq<Op>, vs: seq<Val>, op: Op, v: Val)
    requires |ops| == |vs|
    ensures ExtendAll(env, ops + [op], vs + [v]) == Extend(ExtendAll(env, ops, vs), op, v)
    decreases |ops|
  {
    if ops == [] {
      assert ops + [op] == [op] && vs + [v] == [v] && [op][1..] == [];
    } else {
      ExtendAllSnoc(Extend(env, ops[0], vs[0]), ops[1..], vs[1..], op, v);
      assert (ops + [op])[1..] == ops[1..] + [op] && (vs + [v])[1..] == vs[1..] + [v];
    }
  }

  method Parse(t: Type, cur: Cursor) returns (r: Result<Val>)
    requires cur.Valid()
    modifies cur
    ensures cur.Valid() && ParseType(t, old(cur.Rest())) == Left(r, cur.Rest())
    decreases t, 1
  {
    match t
    case Scalar(s) =>
      var n :- ParseScalar(s, cur);
      r := Ok(Num(n));
    case Packet(ops) =>
      var vs, _ :- ParseItems(ops, NO_NAMES, cur);
      r := Ok(Struct(vs));
    case Frame(tag, tagName, variants) =>
      var n :- ParseScalar(tag, cur);
      var i := Select(variants, n);
      if i == |variants| {
        return Err(InvalidTag);
      }
      var vs, _ :- ParseItems(variants[i].ops, FrameEnv(tag, tagName, n), cur);
      r := Ok(Tagged(n, i, vs));
    case Capsule(_, _, _, _, _) =>
      r := ParseCapsule(t, cur);
  }

  method ParseCapsule(t: Type, cur: Cursor) returns (r: Result<Val>)
    requires cur.Valid() && t.Capsule?
    modifies cur
    ensures cur.Valid() && ParseType(t, old(cur.Rest())) == Left(r, cur.Rest())
    decreases t, 0
  {
    var hs, env :- ParseItems(t.header, NO_NAMES, cur);
    var n := Size(t.within, env);
    if n == None {
      return Err(Undefined);
    }
    var sub :- cur.SubCursor(n.value);
    var tag := Eval(t.selector, env);
    if tag == None {
      return Err(Undefined);
    }
    var i := Select(t.variants, tag.value.n);
    if i == |t.variants| {
      return Err(InvalidTag);
    }
    var vs;
    if t.backend.C? {
      vs :- ParsePayloadItems(t.variants[i].ops, PayloadEnv(env), sub, cur);
      var unused := sub.Remaining();
      if unused != 0 {
        return Err(TrailingData);
      }
    } else {
      vs, env :- ParseItems(t.variants[i].ops, PayloadEnv(env), sub);
    }
    r := Ok(Encapsulated(hs, i, vs));
  }

  // ----- the payload of a C capsule, with the cursor `cur` around its scope at hand

  lemma {:induction false} PrependPayload(ops: seq<Op>, env: Env, b: bytes, rest: bytes, vs: seq<Val>)
    requires ops != []
    ensures Prepend(vs, RunPayload(ops, env, b, rest)) ==
            match ParsePayloadOp(ops[0], env, b, rest)
            case Ok((v, m)) => Prepend(vs + [v], RunPayload(ops[1..], Extend(env, ops[0], v), m, rest))
            case Err(e) => Err(e)
  {
    match ParsePayloadOp(ops[0], env, b, rest)
    case Ok((v, m)) =>
      match RunPayload(ops[1..], Extend(env, ops[0], v), m, rest) {
        case Ok((ws, _)) => assert vs + ([v] + ws) == vs + [v] + ws;
        case Err(_) =>
      }
    case Err(_) =>
  }

  /** A reading of a bit group put where the struct holds that group. */
  function Stored(names: seq<string>, g: Group, w: Val, ops: seq<Op>, vs: seq<Val>): (us: seq<Val>)
    requires |ops| == |vs|
    ensures |us| == |vs|
    decreases |ops|
  {
    if ops == [] then []
    else [if ops[0] == BitFields(names, g) then w else vs[0]] + Stored(names, g, w, ops[1..], vs[1..])
  }

  lemma {:induction false} StoredAt(names: seq<string>, g: Group, w: Val, ops: seq<Op>, vs: seq<Val>, i: nat)
    requires |ops| == |vs| && i < |ops|
    ensures Stored(names, g, w, ops, vs)[i] == if ops[i] == BitFields(names, g) then w else vs[i]
    decreases |ops|
  {
    if i > 0 {
      StoredAt(names, g, w, ops[1..], vs[1..], i - 1);
    }
  }

  lemma {:induction false} LastReadingSnoc(names: seq<string>, g: Group, v: Val, ops: seq<Op>, ws: seq<Val>, op: Op, w: Val)
    requires |ops| == |ws|
    ensures LastReading(names, g, v, ops + [op], ws + [w]) ==
            if op == Later(names, g) then w else LastReading(names, g, v, ops, ws)
    decreases |ops|
  {
    if ops != [] {
      assert (ops + [op])[1..] == ops[1..] + [op] && (ws + [w])[1..] == ws[1..] + [w];
      LastReadingSnoc(names, g, if ops[0] == Later(names, g) then ws[0] else v, ops[1..], ws[1..], op, w);
    } else {
      assert (ops + [op])[1..] == [] && (ws + [w])[1..] == [];
    }
  }

  lemma {:induction false} FinalStep(ops: seq<Op>, ws: seq<Val>)
    requires ops != [] && |ops| == |ws|
    ensures Final(ops, ws) != [] && Final(ops, ws)[1..] == Final(ops[1..], ws[1..])
    ensures ops[0].BitFields? ==> Final(ops, ws)[0] == LastReading(ops[0].names, ops[0].group, ws[0], ops[1..], ws[1..])
    ensures ops[0].Later? ==> Final(ops, ws)[0] == Checked
    ensures !ops[0].BitFields? && !ops[0].Later? ==> Final(ops, ws)[0] == ws[0]
  {
  }

  lemma {:induction false} FinalLength(ops: seq<Op>, ws: seq<Val>)
    requires |ops| == |ws|
    ensures |Final(ops, ws)| == |ops|
    decreases |ops|
  {
    if ops != [] {
      FinalLength(ops[1..], ws[1..]);
    }
  }

  /** What one more reading does to the struct. */
  lemma {:induction false} FinalSnoc(ops: seq<Op>, ws: seq<Val>, op: Op, w: Val)
    requires |ops| == |ws|
    ensures |Final(ops, ws)| == |ops|
    ensures Final(ops + [op], ws + [w]) ==
            if op.Later? then Stored(op.names, op.group, w, ops, Final(ops, ws)) + [Checked] else Final(ops, ws) + [w]
    decreases |ops|
  {
    FinalLength(ops, ws);
    FinalStep(ops + [op], ws + [w]);
    assert ops != [] ==> (ops + [op])[1..] == ops[1..] + [op] && (ws + [w])[1..] == ws[1..] + [w];
    if ops != [] {
      FinalStep(ops, ws);
      FinalSnoc(ops[1..], ws[1..], op, w);
      if ops[0].BitFields? {
        LastReadingSnoc(ops[0].names, ops[0].group, ws[0], ops[1..], ws[1..], op, w);
      }
    } else {
      assert (ops + [op])[1..] == [] && (ws + [w])[1..] == [];
    }
  }

  /** Every field of the group is assigned. */
  method StoreReading(names: seq<string>, g: Group, w: Val, ops: seq<Op>, vs: seq<Val>) returns (us: seq<Val>)
    requires |ops| == |vs|
    ensures us == Stored(names, g, w, ops, vs)
  {
    us := vs;
    for i := 0 to |vs|
      invariant |us| == |vs| && us[i..] == vs[i..]
      invariant forall j :: 0 <= j < i ==> us[j] == Stored(names, g, w, ops, vs)[j]
    {
      StoredAt(names, g, w, ops, vs, i);
      assert us[i..][0] == vs[i..][0];
      if ops[i] == BitFields(names, g) {
        us := us[i := w];
      }
    }
  }

  method ParsePayloadItems(ops: seq<Op>, names: Env, sub: Cursor, cur: Cursor) returns (r: Result<seq<Val>>)
    requires sub.Valid() && cur.Valid() && sub != cur
    modifies sub
    ensures sub.Valid() && ParsePayload(ops, names, old(sub.Rest()), cur.Rest()) == Left(r, sub.Rest())
    decreases ops, 2
  {
    ghost var b, rest := sub.Rest(), cur.Rest();
    ghost var ws: seq<Val> := [];
    var vs: seq<Val> := [];
    var env := names;
    assert ops[0..] == ops;
    for i := 0 to |ops|
      invariant sub.Valid() && |ws| == i && |vs| == i && vs == Final(ops[..i], ws)
      invariant RunPayload(ops, names, b, rest) == Prepend(ws, RunPayload(ops[i..], env, sub.Rest(), rest))
    {
      PrependPayload(ops[i..], env, sub.Rest(), rest, ws);
      assert ops[i..][0] == ops[i] && ops[i..][1..] == ops[i + 1..] && ops[..i] + [ops[i]] == ops[..i + 1];
      var w :- ParsePayloadItem(ops[i], env, sub, cur);
      FinalSnoc(ops[..i], ws, ops[i], w);
      if ops[i].Later? {
        var us := StoreReading(ops[i].names, ops[i].group, w, ops[..i], vs);
        vs := us + [Checked];
      } else {
        vs := vs + [w];
      }
      ws := ws + [w];
      env := Extend(env, ops[i], w);
    }
    assert ops[..|ops|] == ops;
    r := Ok(vs);
  }

  method ParsePayloadItem(op: Op, env: Env, sub: Cursor, cur: Cursor) returns (r: Result<Val>)
    requires sub.Valid() && cur.Valid() && sub != cur
    modifies sub
    ensures sub.Valid() && ParsePayloadOp(op, env, old(sub.Rest()), cur.Rest()) == Left(r, sub.Rest())
    decreases op, 2
  {
    match op
    case Later(_, g) => r := ParseBitGroup(g, sub);
    case Raw(_, LengthOrRemaining(f)) =>
      if env.Lookup(f) == Some(Missing) {
        var d := DataOfOuterLength(sub, cur);
        r := Ok(Data(d));
      } else {
        r := ParseItem(op, env, sub);
      }
    case Fill(_, t, None, max) =>
      var xs :- ParseWhileOuter(t, max, sub, cur);
      r := Ok(Elems(xs));
    case _ => r := ParseItem(op, env, sub);
  }

  /** The data pointer is the sub-cursor's, the length the outer cursor's: in memory the outer bytes come
      right behind the scope. */
  method DataOfOuterLength(sub: Cursor, cur: Cursor) returns (d: bytes)
    requires sub.Valid() && cur.Valid() && sub != cur
    modifies sub
    ensures sub.Valid() && d == (old(sub.Rest()) + cur.Rest())[..|cur.Rest()|] && sub.Rest() == []
  {
    var memory := sub.data[sub.pos..] + cur.data[cur.pos..];
    var n := cur.Remaining();
    d := memory[..n];
    sub.pos := |sub.data|;
  }

  /** The loop tests the outer cursor, which it does not move. */
  method ParseWhileOuter(t: Type, max: nat, sub: Cursor, cur: Cursor) returns (r: Result<seq<Val>>)
    requires sub.Valid() && cur.Valid() && sub != cur
    modifies sub
    ensures sub.Valid()
    ensures cur.Rest() == [] ==> r == Ok([]) && sub.Rest() == old(sub.Rest())
    ensures cur.Rest() != [] ==> r == Err(EndlessFill(t, max, old(sub.Rest())))
    decreases t, 2
  {
    ghost var b := sub.Rest();
    var xs := [];
    var remaining := cur.Remaining();
    while remaining > 0
      invariant sub.Valid() && remaining == |cur.Rest()| && |xs| <= max
      invariant cur.Rest() == [] ==> xs == [] && sub.Rest() == b
      invariant EndlessFill(t, max, b) == EndlessFill(t, max - |xs|, sub.Rest())
      decreases max - |xs|
    {
      if |xs| >= max {
        return Err(Capacity);
      }
      var x :- Parse(t, sub);
      xs := xs + [x];
      remaining := cur.Remaining();
    }
    r := Ok(xs);
  }

  method ParseItems(ops: seq<Op>, names: Env, cur: Cursor) returns (r: Result<seq<Val>>, env: Env)
    requires cur.Valid()
    modifies cur
    ensures cur.Valid() && ParseOps(ops, names, old(cur.Rest())) == Left(r, cur.Rest())
    ensures r.Ok? ==> env == ExtendAll(names, ops, r.value)
    decreases ops, 1
  {
    ghost var b := cur.Rest();
    var vs := [];
    env := names;
    assert ops[0..] == ops;
    for i := 0 to |ops|
      invariant cur.Valid() && |vs| == i && env == ExtendAll(names, ops[..i], vs)
      invariant ParseOps(ops, names, b) == Prepend(vs, ParseOps(ops[i..], env, cur.Rest()))
    {
      PrependOp(ops[i..], env, cur.Rest(), vs);
      assert ops[i..][0] == ops[i] && ops[i..][1..] == ops[i + 1..] && ops[..i] + [ops[i]] == ops[..i + 1];
      var v :- ParseItem(ops[i], env, cur);
      ExtendAllSnoc(names, ops[..i], vs, ops[i], v);
      vs := vs + [v];
      env := Extend(env, ops[i], v);
    }
    assert ops[..|ops|] == ops;
    r := Ok(vs);
  }

  method ParseItem(op: Op, env: Env, cur: Cursor) returns (r: Result<Val>)
    requires cur.Valid()
    modifies cur
    ensures cur.Valid() && ParseOp(op, env, old(cur.Rest())) == Left(r, cur.Rest())
    decreases op, 1
  {
    match op
    case Field(_, t) => r := Parse(t, cur);
    case BitFields(_, g) => r := ParseBitGroup(g, cur);
    case Later(_, _) => r := Ok(Checked);
    case Raw(_, spec) => r := ParseRawField(spec, env, cur);
    case When(_, cond, t) =>
      var holds := Truth(cond, env);
      if holds == None {
        r := Err(Undefined);
      } else if holds.value {
        var v :- Parse(t, cur);
        r := Ok(Present(v));
      } else {
        r := Ok(Absent);
      }
    case Array(_, _, _, _) => r := ParseArray(op, env, cur);
    case Fill(_, _, _, _) => r := ParseFilled(op, env, cur);
    case Derived(_, ty, e) =>
      var v := Eval(e, env);
      r := if v == None then Err(Undefined) else Ok(Num(Convert(ty, v.value).n));
    case Require(e) =>
      var holds := Truth(e, env);
      r := if holds == None then Err(Undefined) else if holds.value then Ok(Checked) else Err(Constraint);
  }

  /** An array of counted elements. */
  method ParseArray(op: Op, env: Env, cur: Cursor) returns (r: Result<Val>)
    requires cur.Valid() && op.Array?
    modifies cur
    ensures cur.Valid() && ParseOp(op, env, old(cur.Rest())) == Left(r, cur.Rest())
    decreases op, 0
  {
    var n := Count(op.count, env);
    if n == None {
      return Err(Undefined);
    }
    if n.value > op.max {
      return Err(Capacity);
    }
    var xs :- ParseElements(op.t, n.value, cur);
    r := Ok(Elems(xs));
  }

  /** An array that fills what remains, or a scope of its own. */
  method ParseFilled(op: Op, env: Env, cur: Cursor) returns (r: Result<Val>)
    requires cur.Valid() && op.Fill?
    modifies cur
    ensures cur.Valid() && ParseOp(op, env, old(cur.Rest())) == Left(r, cur.Rest())
    decreases op, 0
  {
    if op.within.None? {
      var xs :- ParseUntilEmpty(op.t, op.max, cur);
      return Ok(Elems(xs));
    }
    var n := Size(op.within.value, env);
    if n == None {
      return Err(Undefined);
    }
    var sub :- cur.SubCursor(n.value);
    var xs :- ParseUntilEmpty(op.t, op.max, sub);
    r := Ok(Elems(xs));
  }

  method ParseElements(t: Type, n: nat, cur: Cursor) returns (r: Result<seq<Val>>)
    requires cur.Valid()
    modifies cur
    ensures cur.Valid() && ParseCount(t, n, old(cur.Rest())) == Left(r, cur.Rest())
    decreases t, 2
  {
    ghost var b := cur.Rest();
    var xs := [];
    for i := 0 to n
      invariant cur.Valid() && ParseCount(t, n, b) == Prepend(xs, ParseCount(t, n - i, cur.Rest()))
    {
      PrependCount(t, n - i, cur.Rest(), xs);
      var x :- Parse(t, cur);
      xs := xs + [x];
    }
    r := Ok(xs);
  }

  method ParseUntilEmpty(t: Type, max: nat, cur: Cursor) returns (r: Result<seq<Val>>)
    requires cur.Valid()
    modifies cur
    ensures cur.Valid() && ParseFill(t, max, old(cur.Rest())) == r && (r.Ok? ==> cur.Rest() == [])
    decreases t, 2
  {
    ghost var b := cur.Rest();
    var xs := [];
    var remaining := cur.Remaining();
    while remaining > 0
      invariant cur.Valid() && remaining == |cur.Rest()| && |xs| <= max
      invariant ParseFill(t, max, b) == PrependAll(xs, ParseFill(t, max - |xs|, cur.Rest()))
      decreases max - |xs|
    {
      if |xs| >= max {
        return Err(Capacity);
      }
      PrependFill(t, max - |xs|, cur.Rest(), xs);
      var x :- Parse(t, cur);
      xs := xs + [x];
      remaining := cur.Remaining();
    }
    r := Ok(xs);
  }
}

/** Packets with a @checksum field, as emitted: the serializer always goes one item at a time; the parser does
    so too if it recomputes the checksum, and is the ordinary one if it sums everything up to zero. */
module ChecksumCode {
  import opened Bits
  import opened Bytes
  import opened Outcome
  import opened Expr
  import opened Codec
  import opened RoundTrip
  import opened Scopes
  import opened Stability
  import opened Emit
  import opened OneField
  import opened ChecksumPacket
  import opened Runtime
  import Internet
  import S = Scalars
  import SC = SerializeCode
  import PC = ParseCode

  /** The plan is that of the items emitted one at a time. A value is a struct as the ordinary code knows it. */
  datatype Checksummed = Checksummed(plan: Plan, items: seq<Item>) {
    predicate Valid() {
      && plan.Valid() && plan.ops == OneByOne(items)
      && Numbered(items) && Separate(items)
    }

    predicate HasShape(vs: seq<Val>) {
      |vs| == |items| && Shared(items, {}, vs)
    }

    /** The entries written, one for each item. */
    function Written(vs: seq<Val>): (us: seq<Val>)
      requires |vs| == |items|
      ensures |us| == |vs|
    {
      Spread(items, vs, map[])
    }
  }

  function Serialize(p: Checksummed, vs: seq<Val>): Option<bytes>
    requires p.Valid()
  {
    if |vs| != |p.items| then None else Stamped(p.plan, p.Written(vs))
  }

  function Parse(p: Checksummed, b: bytes): Result<(seq<Val>, bytes)>
    requires p.Valid()
  {
    if p.plan.algorithm.InternetSum? then
      var (vs, r) :- ParseOps(Ops(p.items, {}), NO_NAMES, b);
      if |r| <= |b| && Internet.Checksum(b[..|b| - |r|]) == 0 then Ok((vs, r)) else Err(Error.Checksum)
    else
      var (ws, r) :- ParseStamped(p.plan, b);
      Ok((Final(Ops(p.items, {}), ws), r))
  }

  // ----- tracked and ordinary parsing

  lemma {:induction false} ParseSplit(ops: seq<Op>, k: nat, env: Env, b: bytes)
    requires k <= |ops|
    ensures ParseOps(ops, env, b) ==
            match ParseOps(ops[..k], env, b)
            case Err(e) => Err(e)
            case Ok((vs, m)) =>
              match ParseOps(ops[k..], ExtendAll(env, ops[..k], vs), m)
              case Err(e) => Err(e)
              case Ok((ws, r)) => Ok((vs + ws, r))
    decreases |ops|
  {
    SplitAt(ops, k);
    if k == 0 {
      match ParseOps(ops, env, b) {
        case Ok((ws, _)) => assert [] + ws == ws;
        case Err(_) =>
      }
    } else if ParseOp(ops[0], env, b).Ok? {
      var (v, m) := ParseOp(ops[0], env, b).value;
      ParseSplit(ops[1..], k - 1, Extend(env, ops[0], v), m);
      SplitCons(ops, k, env, b, v, m);
    }
  }

  lemma {:induction false} SplitCons(ops: seq<Op>, k: nat, env: Env, b: bytes, v: Val, m: bytes)
    requires 0 < k <= |ops| && ParseOp(ops[0], env, b) == Ok((v, m))
    ensures ops[..k] != [] && ops[..k][0] == ops[0] && ops[..k][1..] == ops[1..][..k - 1]
    ensures ParseOps(ops[..k], env, b) ==
            match ParseOps(ops[1..][..k - 1], Extend(env, ops[0], v), m)
            case Err(e) => Err(e)
            case Ok((vs, r)) => Ok(([v] + vs, r))
    ensures forall vs: seq<Val> :: ExtendAll(env, ops[..k], [v] + vs) == ExtendAll(Extend(env, ops[0], v), ops[1..][..k - 1], vs)
    ensures forall vs: seq<Val>, ws: seq<Val> :: [v] + vs + ws == [v] + (vs + ws)
  {
    assert ops[..k][1..] == ops[1..][..k - 1];
    forall vs: seq<Val> ensures ExtendAll(env, ops[..k], [v] + vs) == ExtendAll(Extend(env, ops[0], v), ops[1..][..k - 1], vs) {
      assert ([v] + vs)[1..] == vs;
    }
  }

  lemma {:induction false} TrackedIsParse(p: Plan, b: bytes)
    requires p.Valid()
    ensures match ParseTracked(p.ops, p.field, b)
            case Err(e) => ParseOps(p.ops, NO_NAMES, b) == Err(e)
            case Ok((vs, _, r)) => ParseOps(p.ops, NO_NAMES, b) == Ok((vs, r))
  {
    ParseSplit(p.ops, p.field, NO_NAMES, b);
  }

  lemma {:induction false} OnceIsNone(items: seq<Item>)
    ensures NoneAgain(items, {}) <==> NoGroupTwice(items)
  {
  }

  lemma {:induction false} WrittenSame(p: Checksummed, vs: seq<Val>)
    requires p.Valid() && |vs| == |p.items| && NoGroupTwice(p.items)
    ensures p.Written(vs) == vs && Ops(p.items, {}) == p.plan.ops
  {
    OnceIsNone(p.items);
    OneByOneSame(p.items);
    var none: map<nat, Val> := map[];
    assert none.Keys == {};
    SpreadSame(p.items, vs, none);
  }

  // ----- the checksum of a value

  /** Where the field is written. */
  function At(p: Checksummed, vs: seq<Val>): nat
    requires p.Valid() && |vs| == |p.items|
  {
    Codec.Width(SerOps(p.plan.ops[..p.plan.field], p.Written(vs)[..p.plan.field]))
  }

  /** The digest of what is written. */
  function Digested(p: Checksummed, vs: seq<Val>): nat
    requires p.Valid() && |vs| == |p.items|
  {
    var e := SerOps(p.plan.ops, p.Written(vs));
    if e.Some? && At(p, vs) + p.plan.Width() <= |e.value| then Expected(p.plan, e.value, At(p, vs)) else 0
  }

  /** The value that is read back: the struct with the digest in its field. */
  function Returned(p: Checksummed, vs: seq<Val>): seq<Val>
    requires p.Valid() && |vs| == |p.items|
  {
    vs[p.plan.field := Num(Stored(p.plan, Digested(p, vs)))]
  }

  /** The value agrees with the description as it is written, and is not too long for its sum. */
  ghost predicate Agrees(p: Checksummed, vs: seq<Val>, after: nat)
    requires p.Valid()
  {
    && p.HasShape(vs)
    && FitsOps(p.plan.ops, NO_NAMES, p.Written(vs), after)
    && (p.plan.algorithm.InternetSum? ==> Codec.Width(SerOps(p.plan.ops, p.Written(vs))) <= Internet.SAFE_LENGTH)
  }

  lemma {:induction false} FieldIsPlain(p: Checksummed)
    requires p.Valid()
    ensures p.items[p.plan.field].Plain?
  {
    OneByOneAt(p.items, p.plan.field);
  }

  lemma {:induction false} SharedUpdate(items: seq<Item>, emitted: set<nat>, vs: seq<Val>, k: nat, x: Val)
    requires |items| == |vs| && k < |items| && items[k].Plain? && Shared(items, emitted, vs)
    ensures Shared(items, emitted, vs[k := x])
  {
    if k > 0 {
      SharedUpdate(items[1..], Remember(items[0], emitted), vs[1..], k - 1, x);
      assert vs[k := x][1..] == vs[1..][k - 1 := x];
    } else {
      assert vs[k := x][1..] == vs[1..];
    }
  }

  lemma {:induction false} ReturnedWritten(p: Checksummed, vs: seq<Val>)
    requires p.Valid() && p.HasShape(vs)
    ensures p.HasShape(Returned(p, vs))
    ensures p.Written(Returned(p, vs)) == p.Written(vs)[p.plan.field := Num(Stored(p.plan, Digested(p, vs)))]
    ensures Final(Ops(p.items, {}), p.Written(Returned(p, vs))) == Returned(p, vs)
  {
    FieldIsPlain(p);
    var x := Num(Stored(p.plan, Digested(p, vs)));
    SpreadUpdate(p.items, vs, map[], p.plan.field, x);
    SharedUpdate(p.items, {}, vs, p.plan.field, x);
    OneByOneReadsBack(p.items, Returned(p, vs));
  }

  // ----- the main results

  /** A recomputed checksum: the value comes back with only the checksum replaced, exactly when its field is
      read in the byte order it is patched in; otherwise the packet's own parser rejects it. */
  lemma {:induction false} RecomputedRoundTrip(p: Checksummed, vs: seq<Val>, tail: bytes)
    requires p.Valid() && !p.plan.algorithm.InternetSum? && Agrees(p, vs, |tail|)
    ensures Serialize(p, vs).Some?
    ensures Parse(p, Serialize(p, vs).value + tail) ==
            if Sound(p.plan, At(p, vs), Digested(p, vs)) then Ok((Returned(p, vs), tail)) else Err(Error.Checksum)
  {
    StampedRoundTrip(p.plan, p.Written(vs), tail);
    ReturnedWritten(p, vs);
  }

  /** What the ordinary parser reads of a packet written one item at a time, when no group has two fields. */
  lemma {:induction false} SummedOnce(p: Checksummed, vs: seq<Val>, tail: bytes)
    requires p.Valid() && p.plan.algorithm.InternetSum? && Agrees(p, vs, |tail|) && NoGroupTwice(p.items)
    ensures Serialize(p, vs).Some?
    ensures Parse(p, Serialize(p, vs).value + tail) ==
            if Sound(p.plan, At(p, vs), Digested(p, vs)) then Ok((Returned(p, vs), tail)) else Err(Error.Checksum)
  {
    StampedTracked(p.plan, p.Written(vs), tail);
    WrittenSame(p, vs);
    var e := Serialize(p, vs).value;
    TrackedIsParse(p.plan, e + tail);
    TakeAppend(e, tail);
  }

  /** Two fields of one group: what the ordinary parser reads of the packet as one struct is shorter. */
  lemma {:induction false} SummedTwice(p: Checksummed, vs: seq<Val>, tail: bytes)
    requires p.Valid() && p.plan.algorithm.InternetSum? && Agrees(p, vs, |tail|) && !NoGroupTwice(p.items)
    requires OpsContained(Ops(p.items, {})) && OpsKeepLength(Ops(p.items, {}))
    ensures Serialize(p, vs).Some?
    ensures Parse(p, Serialize(p, vs).value + tail) != Ok((Returned(p, vs), tail))
  {
    var ops, ws := Ops(p.items, {}), Returned(p, vs);
    StampedTracked(p.plan, p.Written(vs), tail);
    ReturnedWritten(p, vs);
    var e := Serialize(p, vs).value;
    if ParseOps(ops, NO_NAMES, e + tail) == Ok((ws, tail)) {
      ParseOpsSound(ops, NO_NAMES, e + tail);
      RewriteEnds(e + tail, tail, SerOps(ops, ws), OpsGrade(ops, NO_NAMES, ws));
      OneByOneWritesMore(p.items, ws);
    }
  }

  /** The internet sum, where every item keeps its length: the value comes back with only the checksum
      replaced, exactly when no bit group has two fields and the field is at an even offset or holds two
      equal bytes. */
  lemma {:induction false} SummedRoundTripIff(p: Checksummed, vs: seq<Val>, tail: bytes)
    requires p.Valid() && p.plan.algorithm.InternetSum? && Agrees(p, vs, |tail|)
    requires OpsContained(Ops(p.items, {})) && OpsKeepLength(Ops(p.items, {}))
    ensures Serialize(p, vs).Some?
    ensures Parse(p, Serialize(p, vs).value + tail) == Ok((Returned(p, vs), tail)) <==>
            NoGroupTwice(p.items) && Sound(p.plan, At(p, vs), Digested(p, vs))
  {
    if NoGroupTwice(p.items) {
      SummedOnce(p, vs, tail);
    } else {
      SummedTwice(p, vs, tail);
    }
  }

  lemma {:induction false} ParseLength(ops: seq<Op>, env: Env, b: bytes)
    requires ParseOps(ops, env, b).Ok?
    ensures |ParseOps(ops, env, b).value.0| == |ops|
    decreases |ops|
  {
    if ops != [] {
      var (v, m) := ParseOp(ops[0], env, b).value;
      ParseLength(ops[1..], Extend(env, ops[0], v), m);
    }
  }

  // ----- parsing first

  lemma {:induction false} StampTwice(p: Plan, scope: bytes, at: nat)
    requires at + p.Width() <= |scope|
    ensures Stamp(p, Stamp(p, scope, at), at) == Stamp(p, scope, at)
  {
    StampedIgnored(p, scope, at);
    PatchTwice(scope, at, ToBE(p.Width(), Expected(p, scope, at)));
  }

  lemma {:induction false} PatchTwice(scope: bytes, at: nat, field: bytes)
    requires at + |field| <= |scope|
    ensures var patched := scope[..at] + field + scope[at + |field|..];
            patched[..at] + field + patched[at + |field|..] == patched
  {
  }

  /** The value read back is written in the same bytes. */
  lemma {:induction false} WrittenAgain(p: Checksummed, vs: seq<Val>, after: nat)
    requires p.Valid() && Agrees(p, vs, after)
    ensures Serialize(p, vs).Some? && Serialize(p, Returned(p, vs)) == Serialize(p, vs)
  {
    var us := p.Written(vs);
    StampedTracked(p.plan, us, SkippedField.Zeros(after));
    ReturnedWritten(p, vs);
    ReplaceAt(us, p.plan.field, Num(Stored(p.plan, Digested(p, vs))));
    StampTwice(p.plan, SerOps(p.plan.ops, us).value, At(p, vs));
  }

  lemma {:induction false} NothingLater(items: seq<Item>)
    requires Separate(items)
    ensures NoLater(OneByOne(items))
  {
    forall i | 0 <= i < |items| ensures !OneByOne(items)[i].Later? {
      OneByOneAt(items, i);
    }
  }

  lemma {:induction false} SharedOnce(items: seq<Item>, emitted: set<nat>, vs: seq<Val>)
    requires |items| == |vs| && NoneAgain(items, emitted)
    ensures Shared(items, emitted, vs)
  {
    if items != [] {
      NoneAgainStep(items, emitted);
      SharedOnce(items[1..], Remember(items[0], emitted), vs[1..]);
    }
  }

  lemma {:induction false} ParsedOnce(p: Checksummed, b: bytes)
    requires p.Valid() && NoGroupTwice(p.items) && Parse(p, b).Ok?
    ensures ParseOps(p.plan.ops, NO_NAMES, b) == Parse(p, b) && p.HasShape(Parse(p, b).value.0)
  {
    OneByOneSame(p.items);
    ParseLength(p.plan.ops, NO_NAMES, b) by {
      TrackedIsParse(p.plan, b);
    }
    if !p.plan.algorithm.InternetSum? {
      TrackedIsParse(p.plan, b);
      NothingLater(p.items);
      FinalIsRead(p.plan.ops, ParseOps(p.plan.ops, NO_NAMES, b).value.0);
    }
    OnceIsNone(p.items);
    SharedOnce(p.items, {}, Parse(p, b).value.0);
  }

  /** A parsed packet whose scopes are kept is written in no more bytes. These parse again, to the value with
      the digest in its field, exactly when the check accepts what the serializer stores; and what is read is
      then written in the same bytes. */
  lemma {:induction false} ParsedPacketStable(p: Checksummed, b: bytes)
    requires p.Valid() && NoGroupTwice(p.items) && OpsContained(p.plan.ops)
    requires Parse(p, b).Ok? && OpsKept(p.plan.ops, NO_NAMES, Parse(p, b).value.0)
    requires p.plan.algorithm.InternetSum? ==> |b| <= Internet.SAFE_LENGTH
    ensures var (vs, r) := Parse(p, b).value;
            && |vs| == |p.items| && Serialize(p, vs).Some?
            && |Serialize(p, vs).value| + |r| <= |b|
            && Parse(p, Serialize(p, vs).value) ==
               (if Sound(p.plan, At(p, vs), Digested(p, vs)) then Ok((Returned(p, vs), [])) else Err(Error.Checksum))
            && Serialize(p, Returned(p, vs)) == Serialize(p, vs)
  {
    var (vs, r) := Parse(p, b).value;
    ParsedOnce(p, b);
    ParseOpsSound(p.plan.ops, NO_NAMES, b);
    RewriteEnds(b, r, SerOps(p.plan.ops, vs), OpsGrade(p.plan.ops, NO_NAMES, vs));
    FitsOpsMono(p.plan.ops, NO_NAMES, vs, |r|, 0);
    WrittenSame(p, vs);
    Assoc(Serialize(p, vs).value, [], []) by {
      StampedTracked(p.plan, vs, []);
    }
    if p.plan.algorithm.InternetSum? {
      SummedOnce(p, vs, []);
    } else {
      RecomputedRoundTrip(p, vs, []);
    }
    WrittenAgain(p, vs, 0);
  }

  // ----- the emitted code

  method SerializePacket(p: Checksummed, vs: seq<Val>, w: Writer) returns (r: Result<()>)
    requires p.Valid() && w.Valid()
    modifies w, w.buf
    ensures SC.Emitted(w, old(w.buf[..]), old(w.pos), Serialize(p, vs), r)
  {
    if |vs| != |p.items| {
      return Err(Undefined);
    }
    r := WriteStamped(p.plan, p.Written(vs), w);
  }

  /** All items, with the offset of the checksum field noted on the way. */
  method ParseTrackedItems(ops: seq<Op>, k: nat, cur: Cursor) returns (r: Result<seq<Val>>, at: nat)
    requires cur.Valid() && k <= |ops|
    modifies cur
    ensures cur.Valid()
    ensures match r
            case Err(e) => ParseTracked(ops, k, old(cur.Rest())) == Err(e)
            case Ok(vs) => ParseTracked(ops, k, old(cur.Rest())) == Ok((vs, at, cur.Rest()))
  {
    var start := cur.pos;
    at := 0;
    var vs, env;
    vs, env := PC.ParseItems(ops[..k], NO_NAMES, cur);
    if vs.Err? {
      return vs, 0;
    }
    at := if start <= cur.pos then cur.pos - start else 0;
    var ws, _ := PC.ParseItems(ops[k..], env, cur);
    if ws.Err? {
      return ws, at;
    }
    r := Ok(vs.value + ws.value);
  }

  /** What was used since `start`. */
  method UsedSince(start: nat, cur: Cursor) returns (used: bytes)
    requires cur.Valid() && start <= |cur.data|
    ensures var b := cur.data[start..]; used == if |cur.Rest()| <= |b| then b[..|b| - |cur.Rest()|] else []
  {
    used := if start <= cur.pos then cur.data[start..cur.pos] else [];
    if start <= cur.pos {
      assert cur.data[start..][..cur.pos - start] == cur.data[start..cur.pos];
    }
  }

  method ParseSummed(p: Checksummed, cur: Cursor) returns (r: Result<seq<Val>>)
    requires p.Valid() && cur.Valid() && p.plan.algorithm.InternetSum?
    modifies cur
    ensures cur.Valid() && Parse(p, old(cur.Rest())) == PC.Left(r, cur.Rest())
  {
    var start := cur.pos;
    var vs, _ :- PC.ParseItems(Ops(p.items, {}), NO_NAMES, cur);
    var used := UsedSince(start, cur);
    if start > cur.pos || Internet.Checksum(used) != 0 {
      return Err(Error.Checksum);
    }
    r := Ok(vs);
  }

  method ParseStampedItems(p: Plan, cur: Cursor) returns (r: Result<seq<Val>>)
    requires p.Valid() && cur.Valid()
    modifies cur
    ensures cur.Valid() && ParseStamped(p, old(cur.Rest())) == PC.Left(r, cur.Rest())
  {
    var start := cur.pos;
    var ws, at := ParseTrackedItems(p.ops, p.field, cur);
    if ws.Err? {
      return ws;
    }
    var used := UsedSince(start, cur);
    var k := p.field;
    if k >= |ws.value| || !ws.value[k].Num? || !Accepts(p, used, at, ws.value[k].n) {
      return Err(Error.Checksum);
    }
    r := ws;
  }

  method ParsePacket(p: Checksummed, cur: Cursor) returns (r: Result<seq<Val>>)
    requires p.Valid() && cur.Valid()
    modifies cur
    ensures cur.Valid() && Parse(p, old(cur.Rest())) == PC.Left(r, cur.Rest())
  {
    if p.plan.algorithm.InternetSum? {
      r := ParseSummed(p, cur);
    } else {
      var ws :- ParseStampedItems(p.plan, cur);
      r := Ok(Final(Ops(p.items, {}), ws));
    }
  }
}

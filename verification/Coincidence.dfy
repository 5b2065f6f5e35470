/** Scopes that are not kept without anything showing it: arrays that fill a scope, re-parses that come upon
    another value, and C payloads whose overrun makes up for what is written shorter. */
module Coincidence {
  import opened Bits
  import opened Bytes
  import opened Outcome
  import opened Expr
  import opened Codec
  import opened RoundTrip
  import opened Scopes
  import opened Stability
  import opened Capsules
  import opened Unstable
  import opened FuzzHarness
  import S = Scalars
  import PV = PrefixVarInt

  function Item(name: string, s: S.Scalar): Type {
    Packet([Field(name, Scalar(s))])
  }

  function ItemOf(n: int): Val {
    Struct([Num(n)])
  }

  /** An array that fills a scope of a one-byte length, and what remains behind it. */
  function Sequence(len: string, name: string, item: Type, max: nat, rest: string): Type {
    Packet(SequenceOps(len, name, item, max, rest))
  }

  function SequenceOps(len: string, name: string, item: Type, max: nat, rest: string): seq<Op> {
    [Byte(len), Fill(name, item, Some(Ref(len)), max), Raw(rest, Remaining)]
  }

  function SequenceValues(n: nat, items: seq<Val>, rest: bytes): seq<Val> {
    [Num(n), Elems(items), Data(rest)]
  }

  /** `e` is read as n, and n is written as `short`. */
  predicate ReadsAs(s: S.Scalar, e: bytes, n: int, short: bytes) {
    S.Parse(s, e) == Ok((n, [])) && S.Serialize(s, n) == Ok(short)
  }

  lemma {:induction false} ItemParses(name: string, s: S.Scalar, e: bytes, n: int, r: bytes)
    requires S.Parse(s, e) == Ok((n, r))
    ensures ParseType(Item(name, s), e) == Ok((ItemOf(n), r))
  {
    assert ParseType(Scalar(s), e) == Ok((Num(n), r));
    OneOpParse(Field(name, Scalar(s)), NO_NAMES, e, Num(n), r);
  }

  lemma {:induction false} ItemSerializes(name: string, s: S.Scalar, n: int, short: bytes)
    requires S.Serialize(s, n) == Ok(short)
    ensures SerType(Item(name, s), ItemOf(n)) == Some(short)
    ensures ScopesKept(Item(name, s), ItemOf(n))
  {
    assert SerType(Scalar(s), Num(n)) == Some(short);
    OneOp(Field(name, Scalar(s)), NO_NAMES, Num(n));
  }

  lemma {:induction false} OneItem(t: Type, room: nat, b: bytes, x: Val, r: bytes, xs: seq<Val>)
    requires b != [] && room > 0 && ParseType(t, b) == Ok((x, r)) && ParseFill(t, room - 1, r) == Ok(xs)
    ensures ParseFill(t, room, b) == Ok([x] + xs) && [x] + [] == [x]
  {
  }

  lemma {:induction false} ThreeOps(a: Op, b: Op, c: Op, u: Val, v: Val, w: Val)
    ensures [a, b, c][1..] == [b, c] && [b, c][1..] == [c] && [c][1..] == []
    ensures [u, v, w][1..] == [v, w] && [v, w][1..] == [w] && [w][1..] == []
  {
  }

  lemma {:induction false} SequenceParses(len: string, name: string, item: Type, max: nat, rest: string, scope: bytes, items: seq<Val>, tail: bytes)
    requires |scope| < 256 && ParseFill(item, max, scope) == Ok(items)
    ensures ParseType(Sequence(len, name, item, max, rest), [|scope|] + (scope + tail)) ==
            Ok((Struct(SequenceValues(|scope|, items, tail)), []))
  {
    var a, b, c := Byte(len), Fill(name, item, Some(Ref(len)), max), Raw(rest, Remaining);
    var n, u, v, w := |scope|, Num(|scope|), Elems(items), Data(tail);
    ThreeOps(a, b, c, u, v, w);
    ByteParses(len, NO_NAMES, n, scope + tail);
    LengthByte(len, n, []);
    TakeAppend(scope, tail);
    var env := Header(len, n);
    assert ParseOp(b, env, scope + tail) == Ok((v, tail));
    OneOpParse(c, Extend(env, b, v), tail, w, []);
    ConsOps([b, c], env, [v, w], scope + tail, tail, []);
    ConsOps([a, b, c], NO_NAMES, [u, v, w], [n] + (scope + tail), scope + tail, []);
  }

  lemma {:induction false} SequenceCut(len: string, name: string, item: Type, max: nat, rest: string, n: nat, b: bytes)
    requires |b| < n < 256
    ensures ParseType(Sequence(len, name, item, max, rest), [n] + b) == Err(ShortBuffer)
  {
    var a, f, c := Byte(len), Fill(name, item, Some(Ref(len)), max), Raw(rest, Remaining);
    ThreeOps(a, f, c, Num(n), Absent, Absent);
    ByteParses(len, NO_NAMES, n, b);
    LengthByte(len, n, []);
    assert ParseOp(f, Header(len, n), b) == Err(ShortBuffer);
    assert ParseOps([f, c], Header(len, n), b) == Err(ShortBuffer);
    assert ParseOps([a, f, c], NO_NAMES, [n] + b) == Err(ShortBuffer);
  }

  lemma {:induction false} SequenceSerializes(len: string, name: string, item: Type, max: nat, rest: string, n: nat, items: seq<Val>, e: bytes, tail: bytes)
    requires n < 256 && SerAll(item, items) == Some(e)
    ensures SerType(Sequence(len, name, item, max, rest), Struct(SequenceValues(n, items, tail))) == Some([n] + (e + tail))
    ensures ScopesKept(Sequence(len, name, item, max, rest), Struct(SequenceValues(n, items, tail))) <==>
            AllKept(item, items) && |e| == n
  {
    var a, b, c := Byte(len), Fill(name, item, Some(Ref(len)), max), Raw(rest, Remaining);
    var u, v, w := Num(n), Elems(items), Data(tail);
    ThreeOps(a, b, c, u, v, w);
    LengthByte(len, n, []);
    ByteParses(len, NO_NAMES, n, []);
    var env := Header(len, n);
    OneOp(c, Extend(env, b, v), w);
    assert SerOps([b, c], [v, w]) == Append(Some(e), Some(tail));
    assert SerOps([a, b, c], [u, v, w]) == Append(Some([n]), Some(e + tail));
    assert OpsKept([b, c], env, [v, w]) <==> OpKept(b, env, v);
    assert ScopesKept(a.t, u);
    assert OpsKept([a, b, c], NO_NAMES, [u, v, w]) <==> OpsKept([b, c], env, [v, w]);
  }

  lemma {:induction false} AllOne(t: Type, x: Val, e: bytes)
    requires SerType(t, x) == Some(e)
    ensures SerAll(t, [x]) == Some(e) && (AllKept(t, [x]) <==> ScopesKept(t, x))
  {
    Assoc(e, [], []);
  }

  lemma {:induction false} AllTwo(t: Type, x: Val, e: bytes, y: Val, f: bytes)
    requires SerType(t, x) == Some(e) && SerType(t, y) == Some(f)
    ensures SerAll(t, [x, y]) == Some(e + f) && (AllKept(t, [x, y]) <==> ScopesKept(t, x) && ScopesKept(t, y))
  {
    assert [x, y][1..] == [y];
    AllOne(t, y, f);
  }

  /** A scalar read from a longer form in an array that fills a scope: the packet parses, and what is written
      for it is cut short. */
  lemma {:induction false} LongFormInArray(len: string, name: string, field: string, rest: string, s: S.Scalar, max: nat, long: bytes, n: int, short: bytes)
    requires 0 < |long| < 256 && max > 0 && ReadsAs(s, long, n, short) && |short| < |long|
    ensures var t := Sequence(len, name, Item(field, s), max, rest);
            var v := Struct(SequenceValues(|long|, [ItemOf(n)], []));
            && ParseType(t, [|long|] + long) == Ok((v, []))
            && !ScopesKept(t, v)
            && SerType(t, v) == Some([|long|] + short)
            && ParseType(t, [|long|] + short) == Err(ShortBuffer)
  {
    var item := Item(field, s);
    ItemParses(field, s, long, n, []);
    OneItem(item, max, long, ItemOf(n), [], []);
    Assoc(long, [], []);
    SequenceParses(len, name, item, max, rest, long, [ItemOf(n)], []);
    ItemSerializes(field, s, n, short);
    AllOne(item, ItemOf(n), short);
    Assoc(short, [], []);
    SequenceSerializes(len, name, item, max, rest, |long|, [ItemOf(n)], short, []);
    SequenceCut(len, name, item, max, rest, |long|, short);
  }

  lemma {:induction false} ReadAgain(s: S.Scalar, e: bytes, n: int, short: bytes, tail: bytes)
    requires ReadsAs(s, e, n, short)
    ensures S.Parse(s, short + tail) == Ok((n, tail)) && |short| > 0
  {
    S.ParseSound(s, e);
    S.RoundTrip(s, n, tail);
  }

  /** The value read from a long form with `more` behind the scope, and what is written for it. */
  lemma {:induction false} MissedFirst(len: string, name: string, field: string, rest: string, s: S.Scalar, max: nat, long: bytes, n: int, short: bytes, more: bytes)
    requires 0 < |long| < 256 && max > 0 && ReadsAs(s, long, n, short) && |short| < |long|
    ensures Broken(Sequence(len, name, Item(field, s), max, rest), [|long|] + (long + more),
              Struct(SequenceValues(|long|, [ItemOf(n)], more)), [|long|] + (short + more))
  {
    var item, x := Item(field, s), ItemOf(n);
    ItemParses(field, s, long, n, []);
    OneItem(item, max, long, x, [], []);
    SequenceParses(len, name, item, max, rest, long, [x], more);
    ItemSerializes(field, s, n, short);
    AllOne(item, x, short);
    SequenceSerializes(len, name, item, max, rest, |long|, [x], short, more);
  }

  /** The value read from that, which takes `more` for a second element. */
  lemma {:induction false} MissedSecond(len: string, name: string, field: string, rest: string, s: S.Scalar, max: nat, long: bytes, n: int, short: bytes, more: bytes, m: int)
    requires |long| == |short + more| < 256 && max > 1
    requires ReadsAs(s, long, n, short) && ReadsAs(s, more, m, more)
    ensures Mended(Sequence(len, name, Item(field, s), max, rest), [|long|] + (short + more),
              Struct(SequenceValues(|long|, [ItemOf(n), ItemOf(m)], [])))
  {
    var item, x, y := Item(field, s), ItemOf(n), ItemOf(m);
    ReadAgain(s, long, n, short, more);
    ReadAgain(s, more, m, more, []);
    ItemParses(field, s, short + more, n, more);
    ItemParses(field, s, more, m, []);
    OneItem(item, max - 1, more, y, [], []);
    TwoVals(x, y);
    OneItem(item, max, short + more, x, more, [y]);
    Assoc(short + more, [], []);
    SequenceParses(len, name, item, max, rest, short + more, [x, y], []);
    ItemSerializes(field, s, n, short);
    ItemSerializes(field, s, m, more);
    AllTwo(item, x, short, y, more);
    SequenceSerializes(len, name, item, max, rest, |long|, [x, y], short + more, []);
  }

  /** `b` is read as v, which has a scope that is not kept and is written as `e`. */
  predicate Broken(t: Type, b: bytes, v: Val, e: bytes) {
    ParseType(t, b) == Ok((v, [])) && !ScopesKept(t, v) && SerType(t, v) == Some(e)
  }

  predicate Mended(t: Type, e: bytes, w: Val) {
    ParseType(t, e) == Ok((w, [])) && SerType(t, w) == Some(e)
  }

  lemma {:induction false} NoTrap(t: Type, b: bytes, v: Val, e: bytes, w: Val)
    requires Broken(t, b, v, e) && Mended(t, e, w)
    ensures !Traps(t, b)
  {
  }

  /** The harness misses such a packet when the bytes behind the scope make up for the missing ones: the
      re-parse takes them for a further element, and writes the same bytes. */
  lemma {:induction false} HarnessMisses(len: string, name: string, field: string, rest: string, s: S.Scalar, max: nat, long: bytes, n: int, short: bytes, more: bytes, m: int)
      returns (t: Type, b: bytes, v: Val)
    requires |long| == |short + more| < 256 && max > 1
    requires ReadsAs(s, long, n, short) && ReadsAs(s, more, m, more)
    ensures t == Sequence(len, name, Item(field, s), max, rest) && b == [|long|] + (long + more)
    ensures ParseType(t, b) == Ok((v, [])) && !ScopesKept(t, v) && !Traps(t, b)
  {
    t, b := Sequence(len, name, Item(field, s), max, rest), [|long|] + (long + more);
    v := Struct(SequenceValues(|long|, [ItemOf(n)], more));
    var e := [|long|] + (short + more);
    var w := Struct(SequenceValues(|long|, [ItemOf(n), ItemOf(m)], []));
    BothWritten(s, long, n, short, more, m);
    MissedFirst(len, name, field, rest, s, max, long, n, short, more);
    MissedSecond(len, name, field, rest, s, max, long, n, short, more, m);
    NoTrap(t, b, v, e, w);
  }

  lemma {:induction false} BothWritten(s: S.Scalar, long: bytes, n: int, short: bytes, more: bytes, m: int)
    requires |long| == |short + more| && ReadsAs(s, long, n, short) && ReadsAs(s, more, m, more)
    ensures 0 < |short| < |long|
  {
    ReadAgain(s, long, n, short, []);
    ReadAgain(s, more, m, more, []);
  }

  // ----- data from behind a C payload's scope

  /** The capsule of an optional length, and a scalar behind it. */
  function Followed(s: S.Scalar): Type {
    Packet([Field("c", Optional()), Field("x", Scalar(s))])
  }

  /** Data that overruns its scope can make up for a longer form behind it: the whole is written back byte for
      byte, and so parses again, though the capsule's scope is not kept. */
  lemma {:induction false} OverrunMakesUp(s: S.Scalar, first: byte, long: bytes, n: int) returns (v: Val)
    requires |long| == 2 && ReadsAs(s, long, n, long[1..])
    ensures var b := [0, 1] + ([first] + long);
            && ParseType(Followed(s), b) == Ok((v, []))
            && SerType(Followed(s), v) == Some(b) && !ScopesKept(Followed(s), v)
  {
    var data: bytes, b := [first, long[0]], [0, 1] + ([first] + long);
    var c := OptionalValue(1, data);
    OverrunBytes(first, long);
    OptionalParses([first], long, data);
    OptionalWritten(1, data);
    OptionalKept(1, data);
    v := Struct([c, Num(n)]);
    FollowedParses(s, b, c, long, n);
    FollowedSerializes(s, c, [0, 1] + data, n, long[1..]);
  }

  lemma {:induction false} OverrunBytes(first: byte, long: bytes)
    requires |long| == 2
    ensures var data: bytes := [first, long[0]];
            && ([first] + long)[..2] == data
            && [0, 1] + data + long[1..] == [0, 1] + ([first] + long)
  {
  }

  lemma {:induction false} FollowedParses(s: S.Scalar, b: bytes, c: Val, r: bytes, n: int)
    requires ParseType(Optional(), b) == Ok((c, r)) && S.Parse(s, r) == Ok((n, []))
    ensures ParseType(Followed(s), b) == Ok((Struct([c, Num(n)]), []))
  {
    var x, y := Field("c", Optional()), Field("x", Scalar(s));
    TwoOps(x, y);
    TwoVals(c, Num(n));
    assert ParseType(Scalar(s), r) == Ok((Num(n), []));
    OneOpParse(y, Extend(NO_NAMES, x, c), r, Num(n), []);
    ConsOps([x, y], NO_NAMES, [c, Num(n)], b, r, []);
  }

  lemma {:induction false} FollowedSerializes(s: S.Scalar, c: Val, e: bytes, n: int, short: bytes)
    requires SerType(Optional(), c) == Some(e) && S.Serialize(s, n) == Ok(short)
    ensures SerType(Followed(s), Struct([c, Num(n)])) == Some(e + short)
    ensures ScopesKept(Followed(s), Struct([c, Num(n)])) ==> ScopesKept(Optional(), c)
  {
    var x, y := Field("c", Optional()), Field("x", Scalar(s));
    TwoOps(x, y);
    TwoVals(c, Num(n));
    OneOp(y, NO_NAMES, Num(n));
    assert SerType(Scalar(s), Num(n)) == Some(short);
    assert SerOps([x, y], [c, Num(n)]) == Append(SerOp(x, c), SerOps([y], [Num(n)]));
    assert OpsKept([x, y], NO_NAMES, [c, Num(n)]) ==> OpKept(x, NO_NAMES, c);
  }

  // ----- with the two-bit table of QUIC, without @strict

  const LOOSE: PV.Table := PV.QUIC.(strict := false)

  lemma {:induction false} LooseBytes()
    ensures PV.Valid(LOOSE)
    ensures var s := S.Prefix(LOOSE);
            ReadsAs(s, [0x40, 1], 1, [1]) && ReadsAs(s, [5], 5, [5])
  {
    LooseEncodes(1);
    LooseEncodes(5);
    PV.RoundTrip(LOOSE, 5, []);
    LooseLong();
  }

  lemma {:induction false} LooseLong()
    ensures PV.Valid(LOOSE) && PV.Parse(LOOSE, [0x40, 1]) == Ok((1, []))
  {
    PV.QuicValid();
    assert Pow2(4) == 16 && Pow2(6) == 4 * Pow2(4);
    assert PV.FirstBits(LOOSE) == 64;
    QuotRemAre(0, 64);
    QuotRemAre(0x40, 64);
    assert PV.Find(LOOSE.branches, 1) == 1;
    assert Pow256(0) == 1;
    assert FromBE([1]) == 1 by {
      assert [1][1..] == [] && FromBE([]) == 0;
      JoinIs(1, 1, 0);
    }
    var b: bytes := [0x40, 1];
    assert b[1..2] == [1] && b[2..] == [];
  }

  lemma {:induction false} LooseEncodes(v: nat)
    requires v < 64
    ensures PV.Valid(LOOSE) && PV.Serialize(LOOSE, v) == Ok([v])
  {
    PV.QuicValid();
    assert Pow2(6) == 64 by {
      assert Pow2(6) == 4 * Pow2(4);
    }
    QuotRemAre(v, 1);
    assert PV.Fit(LOOSE.branches, v) == 0;
    assert Pow256(0) == 1;
    var br := LOOSE.branches[0];
    assert PV.Encode(LOOSE, br, v) == [Join(0, PV.FirstBits(LOOSE), v)] + ToBE(0, Rem(v, 1));
    assert ToBE(0, Rem(v, 1)) == [] && PV.Encode(LOOSE, br, v) == [v];
    assert PV.Serialize(LOOSE, v) == Ok(PV.Encode(LOOSE, br, v));
  }

  lemma {:induction false} ThreeBytes()
    ensures var long: bytes := [0x40, 1]; [2] + long == [2, 0x40, 1] && [2] + [1] == [2, 1]
    ensures var long: bytes := [0x40, 1]; [2] + (long + [5]) == [2, 0x40, 1, 5]
  {
  }

  lemma {:induction false} CutShort3(s: S.Scalar) returns (t: Type, v: Val)
    requires ReadsAs(s, [0x40, 1], 1, [1])
    ensures t == Sequence("n", "xs", Item("v", s), 8, "rest")
    ensures ParseType(t, [2, 0x40, 1]) == Ok((v, [])) && SerType(t, v) == Some([2, 1])
    ensures ParseType(t, [2, 1]) == Err(ShortBuffer)
  {
    ThreeBytes();
    t, v := Sequence("n", "xs", Item("v", s), 8, "rest"), Struct(SequenceValues(2, [ItemOf(1)], []));
    LongFormInArray("n", "xs", "v", "rest", s, 8, [0x40, 1], 1, [1]);
  }

  lemma {:induction false} Missed4(s: S.Scalar) returns (t: Type, v: Val)
    requires ReadsAs(s, [0x40, 1], 1, [1]) && ReadsAs(s, [5], 5, [5])
    ensures t == Sequence("n", "xs", Item("v", s), 8, "rest")
    ensures ParseType(t, [2, 0x40, 1, 5]) == Ok((v, [])) && !ScopesKept(t, v) && !Traps(t, [2, 0x40, 1, 5])
  {
    ThreeBytes();
    var b;
    t, b, v := HarnessMisses("n", "xs", "v", "rest", s, 8, [0x40, 1], 1, [1], [5], 5);
  }

  /** 02 40 01: the array element is written in one byte, and the packet as 02 01 is cut short. */
  lemma {:induction false} CutShortByHand() returns (t: Type, v: Val)
    ensures t == Sequence("n", "xs", Item("v", S.Prefix(LOOSE)), 8, "rest")
    ensures ParseType(t, [2, 0x40, 1]) == Ok((v, [])) && SerType(t, v) == Some([2, 1])
    ensures ParseType(t, [2, 1]) == Err(ShortBuffer)
  {
    LooseBytes();
    t, v := CutShort3(S.Prefix(LOOSE));
  }

  /** 02 40 01 05: the scope is not kept, and the harness does not trap. */
  lemma {:induction false} MissedByHand() returns (t: Type, v: Val)
    ensures t == Sequence("n", "xs", Item("v", S.Prefix(LOOSE)), 8, "rest")
    ensures ParseType(t, [2, 0x40, 1, 5]) == Ok((v, [])) && !ScopesKept(t, v) && !Traps(t, [2, 0x40, 1, 5])
  {
    LooseBytes();
    t, v := Missed4(S.Prefix(LOOSE));
  }

  /** 00 01 d0 40 01: outside `Contained` descriptions a value can parse again without its scopes being kept. */
  lemma {:induction false} MadeUpByHand() returns (v: Val)
    ensures var t, b := Followed(S.Prefix(LOOSE)), [0, 1] + ([0xd0] + [0x40, 1]);
            && ParseType(t, b) == Ok((v, [])) && SerType(t, v) == Some(b) && !ScopesKept(t, v)
  {
    LooseBytes();
    var long: bytes := [0x40, 1];
    assert long[1..] == [1];
    v := OverrunMakesUp(S.Prefix(LOOSE), 0xd0, long, 1);
  }
}

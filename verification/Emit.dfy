/** How the emitters turn a scope's items into code: the first field of a bit group emits the whole
    group, the others nothing. Serializers of packets with a checksum, and their parsers unless the sum is
    checked to be zero, are emitted one item at a time, so that every field emits its group. */
module Emit {
  import opened Bytes
  import opened Outcome
  import opened Expr
  import opened Codec
  import opened RoundTrip
  import S = Scalars
  import BG = BitGroup

  /** An item of a scope: an op of its own, or one field of the bit group numbered `id`. */
  datatype Item = Plain(op: Op) | Bit(id: nat, names: seq<string>, group: Group)

  /** The op of an item emitted as the first of its group. */
  function OpOf(item: Item): Op {
    match item case Plain(op) => op case Bit(_, names, g) => BitFields(names, g)
  }

  predicate Emits(item: Item, emitted: set<nat>) {
    item.Bit? ==> item.id !in emitted
  }

  /** The op of an item, given the groups already emitted. */
  function OpAfter(item: Item, emitted: set<nat>): Op {
    if Emits(item, emitted) then OpOf(item) else Later(item.names, item.group)
  }

  function Remember(item: Item, emitted: set<nat>): set<nat> {
    if item.Bit? then emitted + {item.id} else emitted
  }

  /** The ops of the items, one for each. */
  function Ops(items: seq<Item>, emitted: set<nat>): (ops: seq<Op>)
    ensures |ops| == |items|
  {
    if items == [] then [] else [OpAfter(items[0], emitted)] + Ops(items[1..], Remember(items[0], emitted))
  }

  /** The groups that have a field among the first n items. */
  function Ids(items: seq<Item>, n: nat): set<nat>
    requires n <= |items|
  {
    set i | 0 <= i < n && items[i].Bit? :: items[i].id
  }

  lemma {:induction false} OpsAt(items: seq<Item>, emitted: set<nat>, i: nat)
    requires i < |items|
    ensures Ops(items, emitted)[i] == OpAfter(items[i], emitted + Ids(items, i))
  {
    if i == 0 {
      assert emitted + Ids(items, 0) == emitted;
    } else {
      OpsAt(items[1..], Remember(items[0], emitted), i - 1);
      assert Remember(items[0], emitted) + Ids(items[1..], i - 1) == emitted + Ids(items, i) by {
        IdsStep(items, i);
      }
    }
  }

  lemma {:induction false} IdsStep(items: seq<Item>, i: nat)
    requires 0 < i <= |items|
    ensures Ids(items, i) == Remember(items[0], Ids(items[1..], i - 1))
  {
    forall x | x in Ids(items, i) ensures x in Remember(items[0], Ids(items[1..], i - 1)) {
      var j :| 0 <= j < i && items[j].Bit? && items[j].id == x;
      if j > 0 {
        assert items[1..][j - 1] == items[j];
      }
    }
    forall x | x in Remember(items[0], Ids(items[1..], i - 1)) ensures x in Ids(items, i) {
      if items[0].Bit? && x == items[0].id {
        assert 0 < i;
      } else {
        var j :| 0 <= j < i - 1 && items[1..][j].Bit? && items[1..][j].id == x;
        assert items[j + 1] == items[1..][j];
      }
    }
  }

  predicate FirstOfGroup(items: seq<Item>, i: nat)
    requires i < |items| && items[i].Bit?
  {
    forall j :: 0 <= j < i && items[j].Bit? ==> items[j].id != items[i].id
  }

  /** Every plain item is emitted in its place, and every bit group at its first field and nowhere else. */
  lemma {:induction false} GroupsOnce(items: seq<Item>, i: nat)
    requires i < |items|
    ensures items[i].Plain? ==> Ops(items, {})[i] == items[i].op
    ensures items[i].Bit? && FirstOfGroup(items, i) ==> Ops(items, {})[i] == BitFields(items[i].names, items[i].group)
    ensures items[i].Bit? && !FirstOfGroup(items, i) ==> Ops(items, {})[i] == Later(items[i].names, items[i].group)
  {
    OpsAt(items, {}, i);
    assert {} + Ids(items, i) == Ids(items, i);
    if items[i].Bit? {
      assert FirstOfGroup(items, i) <==> items[i].id !in Ids(items, i);
    }
  }

  method EmitItems(items: seq<Item>) returns (out: seq<Op>)
    ensures out == Ops(items, {})
  {
    out := [];
    var emitted: set<nat> := {};
    for i := 0 to |items|
      invariant |out| == i && emitted == Ids(items, i)
      invariant forall j :: 0 <= j < i ==> out[j] == Ops(items, {})[j]
    {
      OpsAt(items, {}, i);
      assert {} + Ids(items, i) == Ids(items, i);
      match items[i]
      case Plain(op) => out := out + [op];
      case Bit(id, names, g) =>
        if id !in emitted {
          emitted := emitted + {id};
          out := out + [BitFields(names, g)];
        } else {
          out := out + [Later(names, g)];
        }
    }
  }

  /** The wrapper for checksummed scopes: every item is emitted as a list of its own. */
  method EmitOneByOne(items: seq<Item>) returns (out: seq<Op>)
    ensures out == OneByOne(items)
  {
    out := [];
    assert items[0..] == items;
    for i := 0 to |items|
      invariant OneByOne(items) == out + OneByOne(items[i..])
    {
      assert items[i..][0] == items[i] && items[i..][1..] == items[i + 1..];
      var single := EmitItems([items[i]]);
      assert single == [OpOf(items[i])] by {
        assert [items[i]][1..] == [];
      }
      ghost var rest := OneByOne(items[i + 1..]);
      assert out + ([OpOf(items[i])] + rest) == out + single + rest;
      out := out + single;
    }
    assert out + [] == out;
  }

  function OneByOne(items: seq<Item>): (ops: seq<Op>)
    ensures |ops| == |items|
  {
    if items == [] then [] else [OpOf(items[0])] + OneByOne(items[1..])
  }

  lemma {:induction false} OneByOneAt(items: seq<Item>, i: nat)
    requires i < |items|
    ensures OneByOne(items)[i] == OpOf(items[i])
  {
    if i > 0 {
      OneByOneAt(items[1..], i - 1);
    }
  }

  predicate NoGroupTwice(items: seq<Item>) {
    forall i :: 0 <= i < |items| && items[i].Bit? ==> FirstOfGroup(items, i)
  }

  /** Emitting one item at a time makes the same code exactly when no group has two fields in the scope. */
  lemma {:induction false} OneByOneSame(items: seq<Item>)
    ensures OneByOne(items) == Ops(items, {}) <==> NoGroupTwice(items)
  {
    forall i | 0 <= i < |items|
      ensures OneByOne(items)[i] == OpOf(items[i])
      ensures items[i].Bit? && !FirstOfGroup(items, i) ==> Ops(items, {})[i].Later?
      ensures items[i].Plain? || FirstOfGroup(items, i) ==> Ops(items, {})[i] == OpOf(items[i])
    {
      OneByOneAt(items, i);
      GroupsOnce(items, i);
    }
  }

  // ----- what goes wrong otherwise: a group is written once for each of its fields

  /** Fields of the same number are fields of the same group, and of different numbers of different groups. */
  predicate Numbered(items: seq<Item>) {
    forall i, j :: 0 <= i < j < |items| && items[i].Bit? && items[j].Bit? ==>
      (items[i].id == items[j].id <==> items[i].names == items[j].names && items[i].group == items[j].group)
  }

  lemma {:induction false} NumberedStep(items: seq<Item>)
    requires items != [] && Numbered(items)
    ensures Numbered(items[1..])
    ensures items[0].Bit? ==> forall i :: 0 <= i < |items[1..]| && items[1..][i].Bit? ==>
              (items[1..][i].id == items[0].id <==> items[1..][i].names == items[0].names && items[1..][i].group == items[0].group)
  {
  }

  /** The entry that each item writes: a further field of a group writes the group's entry again. `known` are
      the entries of the groups before. */
  function Spread(items: seq<Item>, vs: seq<Val>, known: map<nat, Val>): (us: seq<Val>)
    requires |items| == |vs|
    ensures |us| == |vs|
  {
    if items == [] then []
    else
      var v := EntryOf(items[0], vs[0], known);
      [v] + Spread(items[1..], vs[1..], Know(items[0], v, known))
  }

  function EntryOf(item: Item, v: Val, known: map<nat, Val>): Val {
    if item.Bit? && item.id in known then known[item.id] else v
  }

  function Know(item: Item, v: Val, known: map<nat, Val>): map<nat, Val> {
    if item.Bit? then known[item.id := v] else known
  }

  lemma {:induction false} KnowKeys(item: Item, v: Val, known: map<nat, Val>)
    ensures Know(item, v, known).Keys == Remember(item, known.Keys)
  {
  }

  /** Bytes written again for fields of groups already written. */
  function Repeated(items: seq<Item>, emitted: set<nat>): nat {
    if items == [] then 0
    else
      (if Emits(items[0], emitted) then 0 else ContainerBytes(items[0].group.totalBits))
      + Repeated(items[1..], Remember(items[0], emitted))
  }

  predicate KnownReadings(items: seq<Item>, known: map<nat, Val>) {
    forall i :: 0 <= i < |items| && items[i].Bit? && items[i].id in known ==>
      known[items[i].id].Struct? && |known[items[i].id].vs| == |items[i].group.members|
  }

  lemma {:induction false} GroupWidth(names: seq<string>, g: Group, v: Val)
    ensures SerOp(BitFields(names, g), v).Some? <==> v.Struct? && |v.vs| == |g.members|
    ensures SerOp(BitFields(names, g), v).Some? ==> Width(SerOp(BitFields(names, g), v)) == ContainerBytes(g.totalBits) > 0
  {
  }

  lemma {:induction false} ItemWidth(item: Item, v: Val, known: map<nat, Val>)
    requires SerOp(OpAfter(item, known.Keys), v).Some?
    requires item.Bit? && item.id in known ==> known[item.id].Struct? && |known[item.id].vs| == |item.group.members|
    ensures SerOp(OpOf(item), EntryOf(item, v, known)).Some?
    ensures Width(SerOp(OpOf(item), EntryOf(item, v, known))) == Width(SerOp(OpAfter(item, known.Keys), v))
              + if Emits(item, known.Keys) then 0 else ContainerBytes(item.group.totalBits)
    ensures item.Bit? ==> EntryOf(item, v, known).Struct? && |EntryOf(item, v, known).vs| == |item.group.members|
  {
    if item.Bit? {
      GroupWidth(item.names, item.group, EntryOf(item, v, known));
    }
  }

  lemma {:induction false} WidthCons(ops: seq<Op>, vs: seq<Val>)
    requires ops != [] && vs != []
    ensures SerOps(ops, vs).Some? <==> SerOp(ops[0], vs[0]).Some? && SerOps(ops[1..], vs[1..]).Some?
    ensures SerOps(ops, vs).Some? ==> Width(SerOps(ops, vs)) == Width(SerOp(ops[0], vs[0])) + Width(SerOps(ops[1..], vs[1..]))
  {
  }

  lemma {:induction false} SpreadWidth(items: seq<Item>, vs: seq<Val>, known: map<nat, Val>)
    requires |items| == |vs| && Numbered(items) && KnownReadings(items, known)
    requires SerOps(Ops(items, known.Keys), vs).Some?
    ensures SerOps(OneByOne(items), Spread(items, vs, known)).Some?
    ensures Width(SerOps(OneByOne(items), Spread(items, vs, known))) == Width(SerOps(Ops(items, known.Keys), vs)) + Repeated(items, known.Keys)
  {
    if items != [] {
      var v := EntryOf(items[0], vs[0], known);
      var known' := Know(items[0], v, known);
      NumberedStep(items);
      KnowKeys(items[0], v, known);
      WidthCons(Ops(items, known.Keys), vs);
      ItemWidth(items[0], vs[0], known);
      KnownStep(items, v, known);
      SpreadWidth(items[1..], vs[1..], known');
      WidthCons(OneByOne(items), Spread(items, vs, known));
    }
  }

  lemma {:induction false} KnownStep(items: seq<Item>, v: Val, known: map<nat, Val>)
    requires items != [] && Numbered(items) && KnownReadings(items, known)
    requires items[0].Bit? ==> v.Struct? && |v.vs| == |items[0].group.members|
    ensures KnownReadings(items[1..], Know(items[0], v, known))
  {
    NumberedStep(items);
  }

  predicate NoneAgain(items: seq<Item>, emitted: set<nat>) {
    forall i :: 0 <= i < |items| && items[i].Bit? ==> FirstOfGroup(items, i) && items[i].id !in emitted
  }

  lemma {:induction false} NoneAgainStep(items: seq<Item>, emitted: set<nat>)
    requires items != []
    ensures NoneAgain(items, emitted) <==> Emits(items[0], emitted) && NoneAgain(items[1..], Remember(items[0], emitted))
  {
    var rest, emitted' := items[1..], Remember(items[0], emitted);
    if NoneAgain(items, emitted) {
      forall i | 0 <= i < |rest| && rest[i].Bit? ensures FirstOfGroup(rest, i) && rest[i].id !in emitted' {
        assert rest[i] == items[i + 1] && FirstOfGroup(items, i + 1);
        assert forall j :: 0 <= j < i ==> rest[j] == items[j + 1];
      }
    }
    if Emits(items[0], emitted) && NoneAgain(rest, emitted') {
      forall i | 0 <= i < |items| && items[i].Bit? ensures FirstOfGroup(items, i) && items[i].id !in emitted {
        if i > 0 {
          assert items[i] == rest[i - 1] && FirstOfGroup(rest, i - 1);
          assert forall j :: 0 < j < i ==> items[j] == rest[j - 1];
        }
      }
    }
  }

  lemma {:induction false} RepeatedIff(items: seq<Item>, emitted: set<nat>)
    ensures Repeated(items, emitted) == 0 <==> NoneAgain(items, emitted)
  {
    if items != [] {
      RepeatedIff(items[1..], Remember(items[0], emitted));
      NoneAgainStep(items, emitted);
    }
  }

  /** A checksummed scope is written longer than the same struct is read, exactly when a group has two
      fields in it: the excess is the groups' integers once more for every further field. */
  lemma {:induction false} OneByOneWritesMore(items: seq<Item>, vs: seq<Val>)
    requires |items| == |vs| && Numbered(items) && SerOps(Ops(items, {}), vs).Some?
    ensures SerOps(OneByOne(items), Spread(items, vs, map[])).Some?
    ensures |SerOps(OneByOne(items), Spread(items, vs, map[])).value| == |SerOps(Ops(items, {}), vs).value| + Repeated(items, {})
    ensures Repeated(items, {}) > 0 <==> !NoGroupTwice(items)
  {
    var none: map<nat, Val> := map[];
    assert none.Keys == {};
    SpreadWidth(items, vs, none);
    RepeatedIff(items, {});
  }

  // ----- reading one by one what was written one by one

  /** A struct holds nothing of its own for further fields of a group. */
  predicate Shared(items: seq<Item>, emitted: set<nat>, vs: seq<Val>)
    requires |items| == |vs|
  {
    items == []
    || ((Emits(items[0], emitted) || vs[0] == Checked) && Shared(items[1..], Remember(items[0], emitted), vs[1..]))
  }

  /** No plain item is one of the two ops of a bit group. */
  predicate Separate(items: seq<Item>) {
    forall i :: 0 <= i < |items| && items[i].Plain? ==> !items[i].op.BitFields? && !items[i].op.Later?
  }

  /** Every further reading of the group is v. */
  predicate ReadsSame(items: seq<Item>, names: seq<string>, g: Group, v: Val, known: map<nat, Val>) {
    forall i :: 0 <= i < |items| && items[i].Bit? && items[i].names == names && items[i].group == g ==>
      items[i].id in known && known[items[i].id] == v
  }

  lemma {:induction false} LastSpread(items: seq<Item>, vs: seq<Val>, known: map<nat, Val>, names: seq<string>, g: Group, v: Val)
    requires |items| == |vs| && Separate(items) && ReadsSame(items, names, g, v, known)
    ensures LastReading(names, g, v, Ops(items, known.Keys), Spread(items, vs, known)) == v
  {
    if items != [] {
      var w := EntryOf(items[0], vs[0], known);
      var known' := Know(items[0], w, known);
      KnowKeys(items[0], w, known);
      ReadsSameStep(items, vs[0], known, names, g, v);
      LastSpread(items[1..], vs[1..], known', names, g, v);
      SpreadStep(items, vs, known);
    }
  }

  lemma {:induction false} ReadsSameStep(items: seq<Item>, x: Val, known: map<nat, Val>, names: seq<string>, g: Group, v: Val)
    requires items != [] && Separate(items) && ReadsSame(items, names, g, v, known)
    ensures Separate(items[1..])
    ensures ReadsSame(items[1..], names, g, v, Know(items[0], EntryOf(items[0], x, known), known))
    ensures OpAfter(items[0], known.Keys) == Later(names, g) ==> EntryOf(items[0], x, known) == v
  {
  }

  lemma {:induction false} SpreadStep(items: seq<Item>, vs: seq<Val>, known: map<nat, Val>)
    requires items != [] && |items| == |vs|
    ensures var v := EntryOf(items[0], vs[0], known);
            var us := Spread(items, vs, known);
            && us[0] == v && us[1..] == Spread(items[1..], vs[1..], Know(items[0], v, known))
    ensures var ops := Ops(items, known.Keys);
            ops[0] == OpAfter(items[0], known.Keys) && ops[1..] == Ops(items[1..], Remember(items[0], known.Keys))
  {
  }

  lemma {:induction false} FinalSpread(items: seq<Item>, vs: seq<Val>, known: map<nat, Val>)
    requires |items| == |vs| && Numbered(items) && Separate(items) && Shared(items, known.Keys, vs)
    ensures Final(Ops(items, known.Keys), Spread(items, vs, known)) == vs
  {
    if items != [] {
      var v := EntryOf(items[0], vs[0], known);
      var known' := Know(items[0], v, known);
      NumberedStep(items);
      KnowKeys(items[0], v, known);
      SeparateStep(items);
      FinalSpread(items[1..], vs[1..], known');
      SpreadStep(items, vs, known);
      if items[0].Bit? && items[0].id !in known {
        assert ReadsSame(items[1..], items[0].names, items[0].group, v, known');
        LastSpread(items[1..], vs[1..], known', items[0].names, items[0].group, v);
      }
      Rejoin(vs);
    }
  }

  lemma {:induction false} SeparateStep(items: seq<Item>)
    requires items != [] && Separate(items)
    ensures Separate(items[1..])
  {
  }

  /** The readings of a struct written one item at a time give the struct back. */
  lemma {:induction false} OneByOneReadsBack(items: seq<Item>, vs: seq<Val>)
    requires |items| == |vs| && Numbered(items) && Separate(items) && Shared(items, {}, vs)
    ensures Final(Ops(items, {}), Spread(items, vs, map[])) == vs
  {
    var none: map<nat, Val> := map[];
    assert none.Keys == {};
    FinalSpread(items, vs, none);
  }

  /** A plain entry is written by its own item only. */
  lemma {:induction false} SpreadUpdate(items: seq<Item>, vs: seq<Val>, known: map<nat, Val>, k: nat, x: Val)
    requires |items| == |vs| && k < |items| && items[k].Plain?
    ensures Spread(items, vs[k := x], known) == Spread(items, vs, known)[k := x]
    ensures Spread(items, vs, known)[k] == vs[k]
  {
    var v := EntryOf(items[0], vs[0], known);
    if k > 0 {
      SpreadUpdate(items[1..], vs[1..], Know(items[0], v, known), k - 1, x);
      assert vs[k := x][1..] == vs[1..][k - 1 := x];
    } else {
      assert vs[k := x][1..] == vs[1..];
    }
  }

  /** Without a second field of any group every item writes its own entry. */
  lemma {:induction false} SpreadSame(items: seq<Item>, vs: seq<Val>, known: map<nat, Val>)
    requires |items| == |vs| && NoneAgain(items, known.Keys)
    ensures Spread(items, vs, known) == vs
  {
    if items != [] {
      NoneAgainStep(items, known.Keys);
      KnowKeys(items[0], vs[0], known);
      SpreadSame(items[1..], vs[1..], Know(items[0], vs[0], known));
      Rejoin(vs);
    }
  }
}

/** The IPv4 header of the examples (section 3.1 of RFC 791, without options): two bit groups of several
    fields and an internet checksum, so that its parser does not read what its serializer writes. */
module Ipv4 {
  import opened Bits
  import opened Bytes
  import opened Outcome
  import opened Expr
  import opened Codec
  import opened RoundTrip
  import opened Scopes
  import opened Emit
  import opened OneField
  import opened ChecksumPacket
  import opened ChecksumCode
  import Internet
  import S = Scalars
  import BG = BitGroup

  // ----- items of fixed size

  predicate FixedItem(item: Item) {
    item.Bit? || (item.op.Field? && item.op.t.Scalar? && item.op.t.s.Prim?)
  }

  predicate FixedItems(items: seq<Item>) {
    forall i :: 0 <= i < |items| ==> FixedItem(items[i])
  }

  function ItemSize(item: Item): nat
    requires FixedItem(item)
  {
    if item.Bit? then ContainerBytes(item.group.totalBits) else item.op.t.s.width
  }

  function TotalSize(items: seq<Item>): nat
    requires FixedItems(items)
  {
    if items == [] then 0 else ItemSize(items[0]) + TotalSize(items[1..])
  }

  predicate ItemFits(item: Item, v: Val)
    requires FixedItem(item)
  {
    if item.Bit? then v.Struct? && v.vs == Nums(NatsOf(v.vs)) && BG.Fits(item.group.members, NatsOf(v.vs))
    else v.Num? && S.InRange(item.op.t.s, v.n)
  }

  predicate ItemsFit(items: seq<Item>, us: seq<Val>) {
    FixedItems(items) && |items| == |us| && forall i :: 0 <= i < |items| ==> ItemFits(items[i], us[i])
  }

  lemma {:induction false} FixedDescription(items: seq<Item>)
    requires FixedItems(items)
    ensures OpsContained(Ops(items, {})) && OpsKeepLength(Ops(items, {})) && Separate(items)
  {
    forall i | 0 <= i < |items| ensures OpContained(Ops(items, {})[i]) && OpKeepsLength(Ops(items, {})[i]) {
      OpsAt(items, {}, i);
      FixedOp(items[i], {} + Ids(items, i));
    }
  }

  lemma {:induction false} FixedOp(item: Item, emitted: set<nat>)
    requires FixedItem(item)
    ensures OpContained(OpAfter(item, emitted)) && OpKeepsLength(OpAfter(item, emitted))
  {
  }

  lemma {:induction false} FixedItemFits(item: Item, env: Env, v: Val, after: nat)
    requires FixedItem(item) && ItemFits(item, v)
    ensures FitsOp(OpOf(item), env, v, after)
    ensures SerOp(OpOf(item), v).Some? && Width(SerOp(OpOf(item), v)) == ItemSize(item)
  {
    if item.Bit? {
      GroupRoundTrip(item.group, v.vs, []);
    } else {
      S.RoundTrip(item.op.t.s, v.n, []);
      assert FitsType(item.op.t, v, after) && SerType(item.op.t, v).Some?;
    }
  }

  lemma {:induction false} FixedFits(items: seq<Item>, env: Env, us: seq<Val>, after: nat)
    requires ItemsFit(items, us)
    ensures FitsOps(OneByOne(items), env, us, after)
    ensures SerOps(OneByOne(items), us).Some? && Width(SerOps(OneByOne(items), us)) == TotalSize(items)
  {
    if items != [] {
      var op := OpOf(items[0]);
      assert ItemsFit(items[1..], us[1..]);
      FixedFits(items[1..], Extend(env, op, us[0]), us[1..], after);
      FixedItemFits(items[0], env, us[0], Width(SerOps(OneByOne(items[1..]), us[1..])) + after);
      FitsFirst(OneByOne(items), env, us, after);
      WidthCons(OneByOne(items), us);
    }
  }

  predicate KnownFit(items: seq<Item>, known: map<nat, Val>)
    requires FixedItems(items)
  {
    forall i :: 0 <= i < |items| && items[i].Bit? && items[i].id in known ==> ItemFits(items[i], known[items[i].id])
  }

  /** What a struct writes for each item fits as soon as its own entries do. */
  lemma {:induction false} SpreadFits(items: seq<Item>, vs: seq<Val>, known: map<nat, Val>)
    requires FixedItems(items) && |items| == |vs| && Numbered(items) && KnownFit(items, known)
    requires forall i :: 0 <= i < |items| && (items[i].Bit? ==> FirstOfGroup(items, i) && items[i].id !in known) ==> ItemFits(items[i], vs[i])
    ensures ItemsFit(items, Spread(items, vs, known))
  {
    if items != [] {
      var v := EntryOf(items[0], vs[0], known);
      var known' := Know(items[0], v, known);
      assert ItemFits(items[0], v);
      NumberedStep(items);
      KnownFitStep(items, v, known);
      forall i | 0 <= i < |items[1..]| && (items[1..][i].Bit? ==> FirstOfGroup(items[1..], i) && items[1..][i].id !in known')
        ensures ItemFits(items[1..][i], vs[1..][i])
      {
        FirstShifts(items, i);
      }
      SpreadFits(items[1..], vs[1..], known');
    }
  }

  lemma {:induction false} FirstShifts(items: seq<Item>, i: nat)
    requires i + 1 < |items|
    ensures items[1..][i] == items[i + 1]
    ensures items[i + 1].Bit? && FirstOfGroup(items[1..], i) && !(items[0].Bit? && items[0].id == items[i + 1].id) ==> FirstOfGroup(items, i + 1)
  {
    assert forall j :: 0 < j <= i ==> items[j] == items[1..][j - 1];
  }

  lemma {:induction false} KnownFitStep(items: seq<Item>, v: Val, known: map<nat, Val>)
    requires items != [] && FixedItems(items) && Numbered(items) && KnownFit(items, known) && ItemFits(items[0], v)
    ensures FixedItems(items[1..]) && KnownFit(items[1..], Know(items[0], v, known))
  {
    NumberedStep(items);
  }

  lemma {:induction false} FixedMentions(items: seq<Item>, name: string)
    requires FixedItems(items)
    ensures NoneMentions(OneByOne(items), name)
  {
    forall i | 0 <= i < |items| ensures !OpMentions(OneByOne(items)[i], name) {
      OneByOneAt(items, i);
      FixedMentionsNothing(items[i], name);
    }
  }

  lemma {:induction false} FixedMentionsNothing(item: Item, name: string)
    requires FixedItem(item)
    ensures !OpMentions(OpOf(item), name)
  {
  }

  lemma {:induction false} SharedIfFirst(items: seq<Item>, emitted: set<nat>, vs: seq<Val>)
    requires |items| == |vs|
    requires forall i :: 0 <= i < |items| ==> vs[i] == Checked || (items[i].Bit? ==> FirstOfGroup(items, i) && items[i].id !in emitted)
    ensures Shared(items, emitted, vs)
  {
    if items != [] {
      forall i | 0 <= i < |items[1..]|
        ensures vs[1..][i] == Checked || (items[1..][i].Bit? ==> FirstOfGroup(items[1..], i) && items[1..][i].id !in Remember(items[0], emitted))
      {
        if vs[i + 1] != Checked && items[i + 1].Bit? {
          assert FirstOfGroup(items, i + 1);
          assert forall j :: 0 <= j < i ==> items[1..][j] == items[j + 1];
        }
      }
      SharedIfFirst(items[1..], Remember(items[0], emitted), vs[1..]);
    }
  }

  /** An entry of its own that fits, or nothing for a further field of a group. */
  predicate EntryFits(items: seq<Item>, vs: seq<Val>, i: nat)
    requires i < |items| == |vs| && FixedItem(items[i])
  {
    if items[i].Bit? && !FirstOfGroup(items, i) then vs[i] == Checked else ItemFits(items[i], vs[i])
  }

  lemma {:induction false} EntriesFit(items: seq<Item>, vs: seq<Val>)
    requires FixedItems(items) && Numbered(items) && |vs| == |items|
    requires forall i :: 0 <= i < |vs| ==> EntryFits(items, vs, i)
    ensures ItemsFit(items, Spread(items, vs, map[])) && Shared(items, {}, vs)
  {
    forall i | 0 <= i < |items|
      ensures vs[i] == Checked || (items[i].Bit? ==> FirstOfGroup(items, i))
      ensures (items[i].Bit? ==> FirstOfGroup(items, i)) ==> ItemFits(items[i], vs[i])
    {
      assert EntryFits(items, vs, i);
    }
    SpreadFits(items, vs, map[]);
    SharedIfFirst(items, {}, vs);
  }

  /** Fixed-size items with two fields of one group and an internet checksum: what is written for a struct is
      not read back. */
  lemma {:induction false} FixedNotReturned(p: Checksummed, vs: seq<Val>, tail: bytes)
    requires p.Valid() && p.plan.algorithm.InternetSum? && FixedItems(p.items) && |vs| == |p.items|
    requires forall i :: 0 <= i < |vs| ==> EntryFits(p.items, vs, i)
    requires TotalSize(p.items) <= Internet.SAFE_LENGTH && !NoGroupTwice(p.items)
    ensures Serialize(p, vs).Some? && |Serialize(p, vs).value| == TotalSize(p.items)
    ensures Parse(p, Serialize(p, vs).value + tail) != Ok((Returned(p, vs), tail))
  {
    EntriesFit(p.items, vs);
    FixedFits(p.items, NO_NAMES, p.Written(vs), |tail|);
    FixedDescription(p.items);
    SummedRoundTripIff(p, vs, tail);
  }

  // ----- the header

  datatype Header = Header(version: nat, ihl: nat, dscp: nat, ecn: nat, totalLength: nat, identification: nat,
                           flags: nat, fragmentOffset: nat, ttl: nat, protocol: nat, checksum: nat, src: nat, dst: nat)
  {
    predicate InRange() {
      && version < 16 && ihl < 16 && dscp < 64 && ecn < 4
      && totalLength < 0x1_0000 && identification < 0x1_0000
      && flags < 8 && fragmentOffset < 8192
      && ttl < 256 && protocol < 256 && checksum < 0x1_0000
      && src < 0x1_0000_0000 && dst < 0x1_0000_0000
    }

    function Values(): seq<Val> {
      [Struct(Nums([version, ihl, dscp, ecn])), Checked, Checked, Checked, Num(totalLength), Num(identification),
       Struct(Nums([flags, fragmentOffset])), Checked, Num(ttl), Num(protocol), Num(checksum), Num(src), Num(dst)]
    }
  }

  function FirstGroup(): (g: Group)
    ensures g == BG.Group(16, true, [BG.Member(12, 4), BG.Member(8, 4), BG.Member(2, 6), BG.Member(0, 2)])
  {
    var ms := [BG.Member(12, 4), BG.Member(8, 4), BG.Member(2, 6), BG.Member(0, 2)];
    assert BG.TilesDown(ms[1..][1..][1..][1..], 0) && BG.TilesDown(ms[1..][1..][1..], 2) && BG.TilesDown(ms[1..][1..], 8);
    BG.Group(16, true, ms)
  }

  function SecondGroup(): (g: Group)
    ensures g == BG.Group(16, true, [BG.Member(13, 3), BG.Member(0, 13)])
  {
    var ms := [BG.Member(13, 3), BG.Member(0, 13)];
    assert BG.TilesDown(ms[1..][1..], 0) && BG.TilesDown(ms[1..], 13);
    BG.Group(16, true, ms)
  }

  function Uint(name: string, width: nat): Item
    requires width in {1, 2, 4}
  {
    Plain(Field(name, Scalar(S.Prim(width, true, S.Unsigned))))
  }

  const FIRST: seq<string> := ["version", "ihl", "dscp", "ecn"]
  const SECOND: seq<string> := ["flags", "fragment_offset"]

  function Items(): (items: seq<Item>)
    ensures |items| == 13
  {
    var first, second := Bit(0, FIRST, FirstGroup()), Bit(1, SECOND, SecondGroup());
    [first, first, first, first, Uint("total_length", 2), Uint("identification", 2), second, second,
     Uint("ttl", 1), Uint("protocol", 1), Uint("header_checksum", 2), Uint("src_addr", 4), Uint("dst_addr", 4)]
  }

  function Packet(): Checksummed {
    Checksummed(Plan(InternetSum, false, OneByOne(Items()), 10, "header_checksum", true), Items())
  }

  lemma {:induction false} ItemsAre()
    ensures FixedItems(Items()) && Numbered(Items())
    ensures !FirstOfGroup(Items(), 1) && !NoGroupTwice(Items())
  {
    assert Items()[1].Bit? && Items()[0].id == Items()[1].id;
  }

  lemma {:induction false} SizeStep(items: seq<Item>, k: nat)
    requires FixedItems(items) && k < |items|
    ensures TotalSize(items[k..]) == ItemSize(items[k]) + TotalSize(items[k + 1..])
  {
    assert items[k..][1..] == items[k + 1..];
  }

  lemma {:induction false} SizeOfThirteen(items: seq<Item>)
    requires FixedItems(items) && |items| == 13
    ensures TotalSize(items) == ItemSize(items[0]) + ItemSize(items[1]) + ItemSize(items[2]) + ItemSize(items[3])
      + ItemSize(items[4]) + ItemSize(items[5]) + ItemSize(items[6]) + ItemSize(items[7]) + ItemSize(items[8])
      + ItemSize(items[9]) + ItemSize(items[10]) + ItemSize(items[11]) + ItemSize(items[12])
  {
    assert items[0..] == items && items[13..] == [];
    forall k | 0 <= k < 13 ensures TotalSize(items[k..]) == ItemSize(items[k]) + TotalSize(items[k + 1..]) {
      SizeStep(items, k);
    }
  }

  lemma {:induction false} ItemsSize()
    ensures FixedItems(Items()) && TotalSize(Items()) == 28
  {
    ItemsAre();
    SizeOfThirteen(Items());
  }

  lemma {:induction false} FixedValid(items: seq<Item>, k: nat, name: string)
    requires FixedItems(items) && Numbered(items) && k < |items| && items[k] == Uint(name, 2)
    ensures Checksummed(Plan(InternetSum, false, OneByOne(items), k, name, true), items).Valid()
  {
    FixedDescription(items);
    OneByOneAt(items, k);
    FixedMentions(items, name);
  }

  lemma {:induction false} PacketValid()
    ensures Packet().Valid()
  {
    ItemsAre();
    FixedValid(Items(), 10, "header_checksum");
  }

  lemma {:induction false} NatsBack(ns: seq<nat>)
    ensures NatsOf(Nums(ns)) == ns
  {
    if ns != [] {
      NatsBack(ns[1..]);
    }
  }

  lemma {:induction false} GroupsFit(h: Header)
    requires h.InRange()
    ensures ItemFits(Items()[0], h.Values()[0]) && ItemFits(Items()[6], h.Values()[6])
  {
    assert Pow2(2) == 4 && Pow2(3) == 8 && Pow2(4) == 16;
    assert Pow2(6) == 64 by {
      assert Pow2(6) == 4 * Pow2(4);
    }
    assert Pow2(13) == 8192 by {
      Pow2Add(6, 6);
      assert Pow2(13) == 2 * Pow2(12);
    }
    NatsBack([h.version, h.ihl, h.dscp, h.ecn]);
    NatsBack([h.flags, h.fragmentOffset]);
  }

  lemma {:induction false} FieldsFit(h: Header, i: nat)
    requires h.InRange() && i < 13 && Items()[i].Plain?
    ensures ItemFits(Items()[i], h.Values()[i])
  {
    assert Pow256(1) == 256 && Pow256(2) == 256 * Pow256(1);
    assert Pow256(4) == 0x1_0000_0000 by {
      assert Pow256(4) == 256 * Pow256(3) && Pow256(3) == 256 * Pow256(2);
    }
  }

  lemma {:induction false} ValuesFit(h: Header, i: nat)
    requires h.InRange() && i < 13
    ensures FixedItem(Items()[i]) && EntryFits(Items(), h.Values(), i)
  {
    var items := Items();
    if items[i].Plain? {
      FieldsFit(h, i);
    } else if i == 0 || i == 6 {
      GroupsFit(h);
    } else {
      assert items[i - 1].Bit? && items[i - 1].id == items[i].id;
    }
  }

  /** Every header is written in 28 bytes, which its parser does not take for that header. */
  lemma {:induction false} HeaderNotReturned(h: Header, tail: bytes) returns (p: Checksummed, vs: seq<Val>)
    requires h.InRange()
    ensures p == Packet() && vs == h.Values()
    ensures p.Valid() && |vs| == |p.items| && Serialize(p, vs).Some? && |Serialize(p, vs).value| == 28
    ensures Parse(p, Serialize(p, vs).value + tail) != Ok((Returned(p, vs), tail))
  {
    p, vs := Packet(), h.Values();
    PacketValid();
    ItemsAre();
    ItemsSize();
    forall i | 0 <= i < |vs| ensures EntryFits(p.items, vs, i) {
      ValuesFit(h, i);
    }
    FixedNotReturned(p, vs, tail);
  }
}

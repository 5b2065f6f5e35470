/** Bit fields: their layout in maximal runs, and the packing and unpacking of a run in one integer. */
module BitGroup {
  import opened Bits
  import opened Outcome

  datatype Member = Member(offset: nat, width: nat)

  /** One run of bit fields, its members in field order. */
  datatype Group = Group(totalBits: nat, bigEndian: bool, members: seq<Member>)

  /** Big-endian layout: the first member is the topmost. */
  predicate TilesDown(ms: seq<Member>, top: nat) {
    if ms == [] then top == 0
    else ms[0].offset + ms[0].width == top && TilesDown(ms[1..], ms[0].offset)
  }

  /** Little-endian layout: the first member is the lowest. */
  predicate TilesUp(ms: seq<Member>, start: nat, top: nat) {
    if ms == [] then start == top
    else ms[0].offset == start && TilesUp(ms[1..], start + ms[0].width, top)
  }

  /** The members cover [0, totalBits) without gap or overlap. */
  predicate Tiles(g: Group) {
    if g.bigEndian then TilesDown(g.members, g.totalBits) else TilesUp(g.members, 0, g.totalBits)
  }

  predicate Valid(g: Group) {
    1 <= g.totalBits <= 64 && g.totalBits % 8 == 0 && Tiles(g)
  }

  // ----- emitted code: shift, mask and or

  function Mask(width: nat): nat { Pow2(width) - 1 }

  function Extract(w: nat, m: Member): nat {
    And(Quot(w, Pow2(m.offset)), Mask(m.width))
  }

  function Unpack(ms: seq<Member>, w: nat): (xs: seq<nat>)
    ensures |xs| == |ms|
  {
    if ms == [] then [] else [Extract(w, ms[0])] + Unpack(ms[1..], w)
  }

  function Insert(acc: nat, m: Member, x: nat): nat {
    Or(acc, Join(And(x, Mask(m.width)), Pow2(m.offset), 0))
  }

  function PackFrom(ms: seq<Member>, xs: seq<nat>, acc: nat): nat
    requires |ms| == |xs|
  {
    if ms == [] then acc else PackFrom(ms[1..], xs[1..], Insert(acc, ms[0], xs[0]))
  }

  function Pack(ms: seq<Member>, xs: seq<nat>): nat
    requires |ms| == |xs|
  {
    PackFrom(ms, xs, 0)
  }

  method PackLoop(g: Group, xs: seq<nat>) returns (bg: nat)
    requires |g.members| == |xs|
    ensures bg == Pack(g.members, xs)
  {
    bg := 0;
    for i := 0 to |xs|
      invariant PackFrom(g.members[i..], xs[i..], bg) == Pack(g.members, xs)
    {
      assert g.members[i..][1..] == g.members[i + 1..] && xs[i..][1..] == xs[i + 1..];
      var m := g.members[i];
      bg := Or(bg, Join(And(xs[i], Mask(m.width)), Pow2(m.offset), 0));
    }
  }

  /** The members' values cut to their widths. */
  function Truncated(ms: seq<Member>, xs: seq<nat>): (ys: seq<nat>)
    requires |ms| == |xs|
    ensures |ys| == |xs|
  {
    if ms == [] then [] else [Rem(xs[0], Pow2(ms[0].width))] + Truncated(ms[1..], xs[1..])
  }

  predicate Fits(ms: seq<Member>, xs: seq<nat>) {
    |ms| == |xs| && forall i :: 0 <= i < |ms| ==> xs[i] < Pow2(ms[i].width)
  }

  lemma {:induction false} FitsTruncated(ms: seq<Member>, xs: seq<nat>)
    requires Fits(ms, xs)
    ensures Truncated(ms, xs) == xs
  {
    if ms != [] {
      assert Fits(ms[1..], xs[1..]);
      FitsTruncated(ms[1..], xs[1..]);
    }
  }

  // ----- packing as numbers side by side

  function Down(ms: seq<Member>, xs: seq<nat>): nat
    requires |ms| == |xs|
  {
    if ms == [] then 0 else Join(Rem(xs[0], Pow2(ms[0].width)), Pow2(ms[0].offset), Down(ms[1..], xs[1..]))
  }

  function Up(ms: seq<Member>, xs: seq<nat>): nat
    requires |ms| == |xs|
  {
    if ms == [] then 0 else Join(Up(ms[1..], xs[1..]), Pow2(ms[0].width), Rem(xs[0], Pow2(ms[0].width)))
  }

  lemma {:induction false} DownBound(ms: seq<Member>, xs: seq<nat>, top: nat)
    requires |ms| == |xs| && TilesDown(ms, top)
    ensures Down(ms, xs) < Pow2(top)
  {
    if ms != [] {
      DownBound(ms[1..], xs[1..], ms[0].offset);
      Pow2Add(ms[0].width, ms[0].offset);
      JoinLt(Rem(xs[0], Pow2(ms[0].width)), Pow2(ms[0].width), Pow2(ms[0].offset), Down(ms[1..], xs[1..]));
    }
  }

  lemma {:induction false} UpBound(ms: seq<Member>, xs: seq<nat>, start: nat, top: nat)
    requires |ms| == |xs| && TilesUp(ms, start, top)
    ensures start <= top && Up(ms, xs) < Pow2(top - start)
  {
    if ms != [] {
      UpBound(ms[1..], xs[1..], start + ms[0].width, top);
      Pow2Add(top - start - ms[0].width, ms[0].width);
      JoinLt(Up(ms[1..], xs[1..]), Pow2(top - start - ms[0].width), Pow2(ms[0].width), Rem(xs[0], Pow2(ms[0].width)));
    }
  }

  /** Unpacking reads each member back, below any higher bits `a`. */
  lemma {:induction false} UnpackDown(ms: seq<Member>, xs: seq<nat>, top: nat, a: nat)
    requires |ms| == |xs| && TilesDown(ms, top)
    ensures Unpack(ms, Join(a, Pow2(top), Down(ms, xs))) == Truncated(ms, xs)
  {
    if ms != [] {
      var m, x, rest := ms[0], Rem(xs[0], Pow2(ms[0].width)), Down(ms[1..], xs[1..]);
      var hi := Join(a, Pow2(m.width), x);
      Pow2Add(m.width, m.offset);
      JoinAssoc(a, Pow2(m.width), x, Pow2(m.offset), rest);
      DownBound(ms[1..], xs[1..], m.offset);
      JoinSplit(hi, Pow2(m.offset), rest);
      AndMask(hi, m.width);
      JoinSplit(a, Pow2(m.width), x);
      UnpackDown(ms[1..], xs[1..], m.offset, hi);
    }
  }

  lemma {:induction false} UnpackUp(ms: seq<Member>, xs: seq<nat>, start: nat, top: nat, low: nat)
    requires |ms| == |xs| && TilesUp(ms, start, top) && low < Pow2(start)
    ensures Unpack(ms, Join(Up(ms, xs), Pow2(start), low)) == Truncated(ms, xs)
  {
    if ms != [] {
      var m, x, rest := ms[0], Rem(xs[0], Pow2(ms[0].width)), Up(ms[1..], xs[1..]);
      JoinSplit(Up(ms, xs), Pow2(start), low);
      AndMask(Up(ms, xs), m.width);
      JoinSplit(rest, Pow2(m.width), x);
      Pow2Add(m.width, start);
      JoinAssoc(rest, Pow2(m.width), x, Pow2(start), low);
      JoinLt(x, Pow2(m.width), Pow2(start), low);
      UnpackUp(ms[1..], xs[1..], start + m.width, top, Join(x, Pow2(start), low));
    }
  }

  lemma {:induction false} PackIsDown(ms: seq<Member>, xs: seq<nat>, top: nat, a: nat)
    requires |ms| == |xs| && TilesDown(ms, top)
    ensures PackFrom(ms, xs, Join(a, Pow2(top), 0)) == Join(a, Pow2(top), Down(ms, xs))
  {
    if ms != [] {
      var m, x, rest := ms[0], Rem(xs[0], Pow2(ms[0].width)), Down(ms[1..], xs[1..]);
      AndMask(xs[0], m.width);
      Pow2Add(m.width, m.offset);
      JoinLt(x, Pow2(m.width), Pow2(m.offset), 0);
      OrDisjoint(a, Join(x, Pow2(m.offset), 0), top);
      JoinAssoc(a, Pow2(m.width), x, Pow2(m.offset), 0);
      JoinAssoc(a, Pow2(m.width), x, Pow2(m.offset), rest);
      PackIsDown(ms[1..], xs[1..], m.offset, Join(a, Pow2(m.width), x));
    }
  }

  lemma {:induction false} PackIsUp(ms: seq<Member>, xs: seq<nat>, start: nat, top: nat, low: nat)
    requires |ms| == |xs| && TilesUp(ms, start, top) && low < Pow2(start)
    ensures PackFrom(ms, xs, low) == Join(Up(ms, xs), Pow2(start), low)
  {
    if ms != [] {
      var m, x, rest := ms[0], Rem(xs[0], Pow2(ms[0].width)), Up(ms[1..], xs[1..]);
      AndMask(xs[0], m.width);
      OrDisjoint(x, low, start);
      Pow2Add(m.width, start);
      JoinLt(x, Pow2(m.width), Pow2(start), low);
      JoinAssoc(rest, Pow2(m.width), x, Pow2(start), low);
      PackIsUp(ms[1..], xs[1..], start + m.width, top, Join(x, Pow2(start), low));
    }
  }

  /** unpack(pack(xs)) is xs cut to the member widths, and pack stays within the group's bits. */
  lemma {:induction false} PackUnpack(g: Group, xs: seq<nat>)
    requires Tiles(g) && |g.members| == |xs|
    ensures Pack(g.members, xs) < Pow2(g.totalBits)
    ensures Unpack(g.members, Pack(g.members, xs)) == Truncated(g.members, xs)
  {
    if g.bigEndian {
      DownBound(g.members, xs, g.totalBits);
      PackIsDown(g.members, xs, g.totalBits, 0);
      UnpackDown(g.members, xs, g.totalBits, 0);
    } else {
      UpBound(g.members, xs, 0, g.totalBits);
      PackIsUp(g.members, xs, 0, g.totalBits, 0);
      UnpackUp(g.members, xs, 0, g.totalBits, 0);
      JoinIs(Up(g.members, xs), 1, 0);
    }
  }

  lemma {:induction false} DownUnpack(ms: seq<Member>, w: nat, top: nat)
    requires TilesDown(ms, top)
    ensures Down(ms, Unpack(ms, w)) == Rem(w, Pow2(top))
  {
    if ms != [] {
      var m := ms[0];
      DownUnpack(ms[1..], w, m.offset);
      AndMask(Quot(w, Pow2(m.offset)), m.width);
      Pow2Add(m.width, m.offset);
      SplitTwice(w, Pow2(m.width), Pow2(m.offset));
      RemTwice(Quot(w, Pow2(m.offset)), Pow2(m.width));
    }
  }

  lemma {:induction false} UpUnpack(ms: seq<Member>, w: nat, start: nat, top: nat)
    requires TilesUp(ms, start, top) && start <= top
    ensures Up(ms, Unpack(ms, w)) == Rem(Quot(w, Pow2(start)), Pow2(top - start))
  {
    if ms != [] {
      var m := ms[0];
      UpBound(ms[1..], Unpack(ms[1..], w), start + m.width, top);
      UpUnpack(ms[1..], w, start + m.width, top);
      AndMask(Quot(w, Pow2(start)), m.width);
      UpStep(w, start, m.width, top - start - m.width);
      RemTwice(Quot(w, Pow2(start)), Pow2(m.width));
    }
  }

  lemma {:induction false} UpStep(w: nat, start: nat, width: nat, rest: nat)
    ensures var u := Quot(w, Pow2(start));
            Rem(u, Pow2(rest + width)) == Join(Rem(Quot(w, Pow2(start + width)), Pow2(rest)), Pow2(width), Rem(u, Pow2(width)))
  {
    Pow2Add(width, start);
    SplitTwice(w, Pow2(width), Pow2(start));
    Pow2Add(rest, width);
    SplitTwice(Quot(w, Pow2(start)), Pow2(rest), Pow2(width));
  }

  lemma {:induction false} RemTwice(n: nat, d: nat)
    requires d > 0
    ensures Rem(Rem(n, d), d) == Rem(n, d)
  {
  }

  /** Each member is the quotient of the container by its offset's power of two, cut to its width. */
  lemma {:induction false} UnpackAt(ms: seq<Member>, w: nat, i: nat)
    requires i < |ms|
    ensures Unpack(ms, w)[i] == w / Pow2(ms[i].offset) % Pow2(ms[i].width)
  {
    if i == 0 {
      var d := Pow2(ms[0].offset);
      AndMask(Quot(w, d), ms[0].width);
      QuotRemAre(w, d);
      QuotRemAre(Quot(w, d), Pow2(ms[0].width));
    } else {
      UnpackAt(ms[1..], w, i - 1);
    }
  }

  /** pack(unpack(w)) is w for every w of the group's width, and every unpacked value fits its member. */
  lemma {:induction false} UnpackPack(g: Group, w: nat)
    requires Tiles(g) && w < Pow2(g.totalBits)
    ensures Pack(g.members, Unpack(g.members, w)) == w
    ensures Fits(g.members, Unpack(g.members, w))
  {
    UnpackFits(g.members, w);
    var xs := Unpack(g.members, w);
    if g.bigEndian {
      PackIsDown(g.members, xs, g.totalBits, 0);
      DownUnpack(g.members, w, g.totalBits);
    } else {
      PackIsUp(g.members, xs, 0, g.totalBits, 0);
      UpUnpack(g.members, w, 0, g.totalBits);
      JoinIs(Up(g.members, xs), 1, 0);
      QuotRemAre(w, 1);
    }
  }

  lemma {:induction false} UnpackFits(ms: seq<Member>, w: nat)
    ensures Fits(ms, Unpack(ms, w))
  {
    if ms != [] {
      UnpackFits(ms[1..], w);
      AndMask(Quot(w, Pow2(ms[0].offset)), ms[0].width);
    }
  }
}

/** Detection of bit groups in a scope: maximal runs of consecutive bit fields, with 16-bit totals. */
module BitLayout {
  import opened Bits
  import opened Outcome
  import opened BitGroup

  type u16 = n: nat | n < 0x1_0000

  datatype LayoutField = LayoutField(isBits: bool, width: Option<u16>)

  /** A field's place in its group. */
  datatype MemberRef = MemberRef(group: nat, offset: nat, width: nat)

  /** A detected group: the fields lo..hi-1. */
  datatype Run = Run(lo: nat, hi: nat, totalBits: u16)

  datatype Layout = Layout(runs: seq<Run>, refs: seq<Option<MemberRef>>)

  predicate IsBit(f: LayoutField) { f.isBits && f.width.Some? }

  predicate AllBits(fs: seq<LayoutField>, lo: nat, hi: nat) {
    lo <= hi <= |fs| && forall i :: lo <= i < hi ==> IsBit(fs[i])
  }

  predicate Maximal(fs: seq<LayoutField>, lo: nat, hi: nat) {
    && lo < hi && AllBits(fs, lo, hi)
    && (lo == 0 || !IsBit(fs[lo - 1]))
    && (hi == |fs| || !IsBit(fs[hi]))
  }

  /** Number of bits of the fields lo..hi-1. */
  function BitsOf(fs: seq<LayoutField>, lo: nat, hi: nat): nat
    requires AllBits(fs, lo, hi)
  {
    if lo == hi then 0 else BitsOf(fs, lo, hi - 1) + fs[hi - 1].width.value
  }

  /** 16-bit unsigned addition and subtraction. */
  function Add16(a: u16, b: u16): u16 { (a + b) % 0x1_0000 }

  function Sub16(a: u16, b: u16): u16 { (a - b) % 0x1_0000 }

  /** The 16-bit total the detector works with. */
  function Total(fs: seq<LayoutField>, lo: nat, hi: nat): u16
    requires AllBits(fs, lo, hi)
  {
    if lo == hi then 0 else Add16(Total(fs, lo, hi - 1), fs[hi - 1].width.value)
  }

  lemma {:induction false} TotalWraps(fs: seq<LayoutField>, lo: nat, hi: nat)
    requires AllBits(fs, lo, hi)
    ensures Total(fs, lo, hi) == BitsOf(fs, lo, hi) % 0x1_0000
  {
    if lo < hi {
      TotalWraps(fs, lo, hi - 1);
    }
  }

  predicate Accepted(fs: seq<LayoutField>, lo: nat, hi: nat)
    requires AllBits(fs, lo, hi)
  {
    Total(fs, lo, hi) <= 64 && Total(fs, lo, hi) % 8 == 0
  }

  /** Offset of field i in a group that starts at lo. */
  function OffsetOf(fs: seq<LayoutField>, lo: nat, i: nat, total: u16, big: bool): nat
    requires AllBits(fs, lo, i + 1) && lo <= i
  {
    if big then Sub16(Sub16(total, Total(fs, lo, i)), fs[i].width.value) else Total(fs, lo, i)
  }

  function RefOf(fs: seq<LayoutField>, run: Run, group: nat, i: nat, big: bool): MemberRef
    requires AllBits(fs, run.lo, run.hi) && run.lo <= i < run.hi
  {
    MemberRef(group, OffsetOf(fs, run.lo, i, run.totalBits, big), fs[i].width.value)
  }

  /** The runs are accepted maximal runs, in order. */
  ghost predicate RunsInOrder(fs: seq<LayoutField>, runs: seq<Run>, n: nat) {
    && (forall g :: 0 <= g < |runs| ==> Closed(fs, runs[g]) && runs[g].hi <= n)
    && (forall g, h :: 0 <= g < h < |runs| ==> runs[g].hi <= runs[h].lo)
  }

  predicate Closed(fs: seq<LayoutField>, run: Run) {
    && Maximal(fs, run.lo, run.hi) && Accepted(fs, run.lo, run.hi)
    && run.totalBits == Total(fs, run.lo, run.hi)
  }

  /** Every field of a run refers to the run, with its width and offset. */
  ghost predicate MembersPlaced(fs: seq<LayoutField>, big: bool, l: Layout)
    requires |l.refs| == |fs|
  {
    forall g :: 0 <= g < |l.runs| ==> Closed(fs, l.runs[g]) && Placed(fs, big, l.refs, l.runs[g], g)
  }

  ghost predicate Placed(fs: seq<LayoutField>, big: bool, refs: seq<Option<MemberRef>>, run: Run, g: nat)
    requires |refs| == |fs| && Closed(fs, run)
  {
    forall i :: run.lo <= i < run.hi ==> refs[i] == Some(RefOf(fs, run, g, i, big))
  }

  /** What detection promises about the fields before index n: the runs are maximal, accepted and in
      order, and a field refers to a group exactly when it is a bit field, at its offset. */
  ghost predicate Describes(fs: seq<LayoutField>, big: bool, l: Layout, n: nat)
    requires n <= |fs|
  {
    && |l.refs| == |fs|
    && RunsInOrder(fs, l.runs, n)
    && MembersPlaced(fs, big, l)
    && (forall i :: 0 <= i < |fs| && l.refs[i].Some? ==> i < n && Covered(l, i))
    && (forall i :: 0 <= i < n && IsBit(fs[i]) ==> l.refs[i].Some?)
  }

  predicate Covered(l: Layout, i: nat)
    requires i < |l.refs| && l.refs[i].Some?
  {
    var g := l.refs[i].value.group;
    g < |l.runs| && l.runs[g].lo <= i < l.runs[g].hi
  }

  ghost predicate AllAccepted(fs: seq<LayoutField>, n: nat) {
    forall lo: nat, hi: nat :: Maximal(fs, lo, hi) && hi <= n ==> Accepted(fs, lo, hi)
  }

  /** The only maximal run that ends after start and by n is start..i-1. */
  lemma {:induction false} NextRun(fs: seq<LayoutField>, start: nat, i: nat, n: nat, lo: nat, hi: nat)
    requires AllBits(fs, start, i) && (start == 0 || !IsBit(fs[start - 1]))
    requires (n == i == |fs|) || (n == i + 1 <= |fs| && !IsBit(fs[i]))
    requires Maximal(fs, lo, hi) && start < hi <= n
    ensures lo == start && hi == i
  {
    assert IsBit(fs[hi - 1]);
    assert start > 0 ==> fs[start - 1] in fs;
    assert lo > 0 ==> fs[lo - 1] in fs;
    assert hi < |fs| ==> fs[hi] in fs;
  }

  lemma {:induction false} AcceptNext(fs: seq<LayoutField>, start: nat, i: nat, n: nat)
    requires AllBits(fs, start, i) && (start == 0 || !IsBit(fs[start - 1]))
    requires (n == i == |fs|) || (n == i + 1 <= |fs| && !IsBit(fs[i]))
    requires AllAccepted(fs, start) && (start < i ==> Accepted(fs, start, i))
    ensures AllAccepted(fs, n)
  {
    forall lo: nat, hi: nat | Maximal(fs, lo, hi) && hi <= n
      ensures Accepted(fs, lo, hi)
    {
      if start < hi {
        NextRun(fs, start, i, n, lo, hi);
      }
    }
  }

  /** Success exactly when every maximal run has an acceptable (16-bit) total. */
  method Detect(fs: seq<LayoutField>, big: bool) returns (r: Option<Layout>)
    ensures r.Some? <==> AllAccepted(fs, |fs|)
    ensures r.Some? ==> Describes(fs, big, r.value, |fs|)
  {
    var l := Layout([], seq(|fs|, _ => None));
    var start, bits: u16 := 0, 0;
    var i := 0;
    while i < |fs|
      invariant 0 <= start <= i <= |fs|
      invariant AllBits(fs, start, i) && bits == Total(fs, start, i)
      invariant start == 0 || !IsBit(fs[start - 1])
      invariant Describes(fs, big, l, start)
      invariant AllAccepted(fs, start)
    {
      if IsBit(fs[i]) {
        bits := Add16(bits, fs[i].width.value);
        i := i + 1;
      } else {
        var done := CloseRun(fs, big, l, start, i, i + 1, bits);
        if done.None? {
          return None;
        }
        l := done.value;
        i := i + 1;
        start, bits := i, 0;
      }
    }
    r := CloseRun(fs, big, l, start, i, i, bits);
  }

  /** Finalize the current run, if there is one, at a non-bit field or at the end. */
  method CloseRun(fs: seq<LayoutField>, big: bool, l: Layout, start: nat, i: nat, n: nat, bits: u16)
    returns (r: Option<Layout>)
    requires AllBits(fs, start, i) && (start == 0 || !IsBit(fs[start - 1]))
    requires (n == i == |fs|) || (n == i + 1 <= |fs| && !IsBit(fs[i]))
    requires bits == Total(fs, start, i)
    requires Describes(fs, big, l, start) && AllAccepted(fs, start)
    ensures r.Some? ==> Describes(fs, big, r.value, n) && AllAccepted(fs, n)
    ensures r.None? ==> !AllAccepted(fs, |fs|)
  {
    r := Some(l);
    if start < i {
      r := Finalize(fs, big, l, start, i, bits);
    }
    if r.Some? {
      AcceptNext(fs, start, i, n);
    }
  }

  /** Close the run start..stop-1: reject a bad total, otherwise place each member. */
  method Finalize(fs: seq<LayoutField>, big: bool, l: Layout, start: nat, stop: nat, bits: u16)
    returns (r: Option<Layout>)
    requires Maximal(fs, start, stop) && bits == Total(fs, start, stop)
    requires Describes(fs, big, l, start)
    ensures r.Some? <==> Accepted(fs, start, stop)
    ensures r.Some? ==> Describes(fs, big, r.value, stop)
  {
    if bits > 64 || bits % 8 != 0 {
      return None;
    }
    var g := |l.runs|;
    var run := Run(start, stop, bits);
    var refs := l.refs;
    var cumulative: u16 := 0;
    for i := start to stop
      invariant cumulative == Total(fs, start, i)
      invariant |refs| == |fs|
      invariant forall k :: start <= k < i ==> refs[k] == Some(RefOf(fs, run, g, k, big))
      invariant forall k :: 0 <= k < |fs| && !(start <= k < i) ==> refs[k] == l.refs[k]
    {
      var width := fs[i].width.value;
      var offset := if big then Sub16(Sub16(bits, cumulative), width) else cumulative;
      refs := refs[i := Some(MemberRef(g, offset, width))];
      cumulative := Add16(cumulative, width);
    }
    AddRun(fs, big, l, run, refs);
    return Some(Layout(l.runs + [run], refs));
  }

  lemma {:induction false} AddRun(fs: seq<LayoutField>, big: bool, l: Layout, run: Run, refs: seq<Option<MemberRef>>)
    requires Closed(fs, run)
    requires Describes(fs, big, l, run.lo)
    requires |refs| == |fs|
    requires Placed(fs, big, refs, run, |l.runs|)
    requires forall k :: 0 <= k < |fs| && !(run.lo <= k < run.hi) ==> refs[k] == l.refs[k]
    ensures Describes(fs, big, Layout(l.runs + [run], refs), run.hi)
  {
    var l' := Layout(l.runs + [run], refs);
    assert RunsInOrder(fs, l'.runs, run.hi);
    forall i | 0 <= i < |fs| && refs[i].Some?
      ensures i < run.hi && Covered(l', i)
    {
      if !(run.lo <= i < run.hi) {
        assert Covered(l, i);
      }
    }
    forall g | 0 <= g < |l'.runs|
      ensures Placed(fs, big, refs, l'.runs[g], g)
    {
      if g < |l.runs| {
        assert Placed(fs, big, l.refs, l.runs[g], g) && l.runs[g].hi <= run.lo;
      }
    }
  }

  /** A bit field lies in exactly one detected group; any other field in none. */
  lemma {:induction false} InOneGroup(fs: seq<LayoutField>, big: bool, l: Layout, i: nat)
    requires Describes(fs, big, l, |fs|) && i < |fs|
    ensures IsBit(fs[i]) <==> exists g :: 0 <= g < |l.runs| && l.runs[g].lo <= i < l.runs[g].hi
    ensures forall g, h | 0 <= g < |l.runs| && 0 <= h < |l.runs| ::
              l.runs[g].lo <= i < l.runs[g].hi && l.runs[h].lo <= i < l.runs[h].hi ==> g == h
  {
    if IsBit(fs[i]) {
      assert Covered(l, i);
    }
  }

  // ----- the members of a run as a group

  function MembersFrom(fs: seq<LayoutField>, lo: nat, i: nat, hi: nat, total: u16, big: bool): (ms: seq<Member>)
    requires AllBits(fs, lo, hi) && lo <= i <= hi
    ensures |ms| == hi - i
    decreases hi - i
  {
    if i == hi then []
    else [Member(OffsetOf(fs, lo, i, total, big), fs[i].width.value)] + MembersFrom(fs, lo, i + 1, hi, total, big)
  }

  function GroupOf(fs: seq<LayoutField>, run: Run, big: bool): Group
    requires AllBits(fs, run.lo, run.hi)
  {
    Group(run.totalBits, big, MembersFrom(fs, run.lo, run.lo, run.hi, run.totalBits, big))
  }

  lemma {:induction false} BitsMono(fs: seq<LayoutField>, lo: nat, i: nat, hi: nat)
    requires AllBits(fs, lo, hi) && lo <= i <= hi
    ensures BitsOf(fs, lo, i) <= BitsOf(fs, lo, hi)
  {
    if i < hi {
      BitsMono(fs, lo, i, hi - 1);
    }
  }

  lemma {:induction false} TilesFrom(fs: seq<LayoutField>, lo: nat, i: nat, hi: nat, big: bool)
    requires AllBits(fs, lo, hi) && lo <= i <= hi
    requires BitsOf(fs, lo, hi) <= 64
    ensures var total := BitsOf(fs, lo, hi);
            var ms := MembersFrom(fs, lo, i, hi, total, big);
            if big then BitsOf(fs, lo, i) <= total && TilesDown(ms, total - BitsOf(fs, lo, i))
            else TilesUp(ms, BitsOf(fs, lo, i), total)
    decreases hi - i
  {
    BitsMono(fs, lo, i, hi);
    if i < hi {
      BitsMono(fs, lo, i + 1, hi);
      TotalWraps(fs, lo, i);
      ExactOffset(fs, lo, i, BitsOf(fs, lo, hi), big);
      TilesFrom(fs, lo, i + 1, hi, big);
    }
  }

  lemma {:induction false} ExactOffset(fs: seq<LayoutField>, lo: nat, i: nat, total: u16, big: bool)
    requires lo <= i && AllBits(fs, lo, i + 1) && BitsOf(fs, lo, i + 1) <= total <= 64
    ensures OffsetOf(fs, lo, i, total, big) == if big then total - BitsOf(fs, lo, i + 1) else BitsOf(fs, lo, i)
  {
    TotalWraps(fs, lo, i);
  }

  lemma {:induction false} BitsSplit(fs: seq<LayoutField>, lo: nat, i: nat, hi: nat)
    requires AllBits(fs, lo, hi) && lo <= i <= hi
    ensures BitsOf(fs, lo, hi) == BitsOf(fs, lo, i) + BitsOf(fs, i, hi)
  {
    if i < hi {
      BitsSplit(fs, lo, i, hi - 1);
    }
  }

  /** Below a field are the bits of the fields after it in big-endian groups, before it in little-endian ones. */
  lemma {:induction false} OffsetIs(fs: seq<LayoutField>, lo: nat, i: nat, hi: nat, big: bool)
    requires AllBits(fs, lo, hi) && lo <= i < hi && BitsOf(fs, lo, hi) <= 64
    ensures OffsetOf(fs, lo, i, Total(fs, lo, hi), big) == if big then BitsOf(fs, i + 1, hi) else BitsOf(fs, lo, i)
  {
    SmallTotal(fs, lo, hi);
    BitsSplit(fs, lo, i + 1, hi);
    ExactOffset(fs, lo, i, BitsOf(fs, lo, hi), big);
  }

  lemma {:induction false} SmallTotal(fs: seq<LayoutField>, lo: nat, hi: nat)
    requires AllBits(fs, lo, hi) && BitsOf(fs, lo, hi) <= 64
    ensures Total(fs, lo, hi) == BitsOf(fs, lo, hi)
  {
    TotalWraps(fs, lo, hi);
  }

  lemma {:induction false} DownWidths(fs: seq<LayoutField>, lo: nat, i: nat, hi: nat, total: u16, big: bool, top: nat)
    requires AllBits(fs, lo, hi) && lo <= i <= hi
    ensures TilesDown(MembersFrom(fs, lo, i, hi, total, big), top) ==> top == BitsOf(fs, lo, hi) - BitsOf(fs, lo, i)
    decreases hi - i
  {
    if i < hi {
      var m := MembersFrom(fs, lo, i, hi, total, big)[0];
      DownWidths(fs, lo, i + 1, hi, total, big, m.offset);
    }
  }

  lemma {:induction false} UpWidths(fs: seq<LayoutField>, lo: nat, i: nat, hi: nat, total: u16, big: bool, start: nat, top: nat)
    requires AllBits(fs, lo, hi) && lo <= i <= hi
    ensures TilesUp(MembersFrom(fs, lo, i, hi, total, big), start, top) ==>
              top - start == BitsOf(fs, lo, hi) - BitsOf(fs, lo, i)
    decreases hi - i
  {
    if i < hi {
      UpWidths(fs, lo, i + 1, hi, total, big, start + fs[i].width.value, top);
    }
  }

  /** An accepted run tiles its container exactly when its true bit count fits the 16-bit total, that
      is, when the total did not wrap. */
  lemma {:induction false} RunTiles(fs: seq<LayoutField>, lo: nat, hi: nat, big: bool)
    requires Maximal(fs, lo, hi) && Accepted(fs, lo, hi)
    ensures Tiles(GroupOf(fs, Run(lo, hi, Total(fs, lo, hi)), big)) <==> BitsOf(fs, lo, hi) < 0x1_0000
  {
    var total := Total(fs, lo, hi);
    TotalWraps(fs, lo, hi);
    if BitsOf(fs, lo, hi) < 0x1_0000 {
      TilesFrom(fs, lo, lo, hi, big);
    } else if big {
      DownWidths(fs, lo, lo, hi, total, big, total);
    } else {
      UpWidths(fs, lo, lo, hi, total, big, 0, total);
    }
  }

  /** 1025 fields of 64 bits are one run of 65600 bits; the wrapped total of 64 is accepted although no
      64-bit container holds it. */
  lemma {:induction false} WrappedTotalAccepted()
    ensures var fs := seq(1025, _ => LayoutField(true, Some(64)));
            && Maximal(fs, 0, 1025) && Accepted(fs, 0, 1025) && BitsOf(fs, 0, 1025) == 65600
  {
    var fs := seq(1025, _ => LayoutField(true, Some(64)));
    UniformBits(fs, 1025);
    TotalWraps(fs, 0, 1025);
  }

  lemma {:induction false} UniformBits(fs: seq<LayoutField>, hi: nat)
    requires hi <= |fs| && forall i :: 0 <= i < |fs| ==> fs[i] == LayoutField(true, Some(64))
    ensures BitsOf(fs, 0, hi) == 64 * hi
  {
    if hi != 0 {
      UniformBits(fs, hi - 1);
    }
  }
}

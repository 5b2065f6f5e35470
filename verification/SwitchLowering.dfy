/** How the C backend lowers the variants of a frame or capsule to a switch, against the Rust backend's
    match arms, which take the first pattern that fits. */
module SwitchLowering {
  import opened Outcome
  import opened Codec

  const I64_MAX: int := 0x7FFF_FFFF_FFFF_FFFF
  const I64_MIN: int := -0x8000_0000_0000_0000
  const MOST_LABELS: int := 4096

  function Saturate(n: int): int {
    if n > I64_MAX then I64_MAX else if n < I64_MIN then I64_MIN else n
  }

  /** The number of values of a range in 64-bit saturating arithmetic. */
  function RangeCount(start: int, end: int): int {
    Saturate(Saturate(end - start) + 1)
  }

  /** Saturation never changes the decision. */
  lemma {:induction false} CountDecides(start: int, end: int)
    ensures RangeCount(start, end) > MOST_LABELS <==> end - start + 1 > MOST_LABELS
  {
  }

  predicate Deferred(p: Pattern) {
    p.Range? && RangeCount(p.start, p.end) > MOST_LABELS
  }

  datatype Label = Label(value: int, variant: nat)

  datatype Guard = Guard(lo: int, hi: int, variant: nat)

  /** Case labels, then in the default block the guards in order, then the wildcard's body if any. */
  datatype Switch = Switch(labels: seq<Label>, guards: seq<Guard>, wildcard: Option<nat>)

  // ----- what the emitted code selects

  function FindLabel(labels: seq<Label>, tag: int): Option<nat> {
    if labels == [] then None
    else if labels[0].value == tag then Some(labels[0].variant)
    else FindLabel(labels[1..], tag)
  }

  function FindGuard(guards: seq<Guard>, tag: int): Option<nat> {
    if guards == [] then None
    else if guards[0].lo <= tag <= guards[0].hi then Some(guards[0].variant)
    else FindGuard(guards[1..], tag)
  }

  function Selected(s: Switch, tag: int): Option<nat> {
    match FindLabel(s.labels, tag)
    case Some(v) => Some(v)
    case None =>
      match FindGuard(s.guards, tag)
      case Some(v) => Some(v)
      case None => s.wildcard
  }

  /** The first fitting variant, or an invalid tag. */
  function FirstMatch(variants: seq<Variant>, tag: int): Option<nat> {
    var i := Select(variants, tag);
    if i == |variants| then None else Some(i)
  }

  // ----- the lowering

  /** Labels, guards and wildcard are those of the first n variants. */
  ghost predicate Lowers(variants: seq<Variant>, n: nat, s: Switch)
    requires n <= |variants|
  {
    && (forall l :: l in s.labels ==> IsLabel(variants, n, l))
    && (forall i, tag :: 0 <= i < n && !variants[i].pattern.Wildcard? && !Deferred(variants[i].pattern) && Matches(variants[i].pattern, tag) ==>
          Label(tag, i) in s.labels)
    && (forall g :: g in s.guards ==> IsGuard(variants, n, g))
    && (forall i :: 0 <= i < n && Deferred(variants[i].pattern) ==>
          Guard(variants[i].pattern.start, variants[i].pattern.end, i) in s.guards)
    && (s.wildcard.Some? ==> s.wildcard.value < n && variants[s.wildcard.value].pattern.Wildcard?)
    && (forall i :: 0 <= i < n && variants[i].pattern.Wildcard? ==> s.wildcard.Some?)
  }

  predicate IsLabel(variants: seq<Variant>, n: nat, l: Label)
    requires n <= |variants|
  {
    && l.variant < n && !variants[l.variant].pattern.Wildcard? && !Deferred(variants[l.variant].pattern)
    && Matches(variants[l.variant].pattern, l.value)
  }

  predicate IsGuard(variants: seq<Variant>, n: nat, g: Guard)
    requires n <= |variants|
  {
    g.variant < n && variants[g.variant].pattern == Range(g.lo, g.hi) && Deferred(variants[g.variant].pattern)
  }

  method LowerSwitch(variants: seq<Variant>) returns (s: Switch)
    ensures Lowers(variants, |variants|, s)
  {
    var labels: seq<Label>, guards: seq<Guard>, wildcard: Option<nat> := [], [], None;
    for i := 0 to |variants|
      invariant Lowers(variants, i, Switch(labels, guards, wildcard))
    {
      match variants[i].pattern {
        case Wildcard =>
          wildcard := Some(i);
        case Exact(v) =>
          labels := labels + [Label(v, i)];
        case Range(lo, hi) =>
          if RangeCount(lo, hi) > MOST_LABELS {
            guards := guards + [Guard(lo, hi, i)];
          } else {
            labels := Expand(labels, lo, hi, i);
          }
      }
    }
    s := Switch(labels, guards, wildcard);
  }

  /** One label for each value of a small range. */
  method Expand(labels: seq<Label>, lo: int, hi: int, i: nat) returns (more: seq<Label>)
    ensures forall l :: l in more <==> l in labels || (lo <= l.value <= hi && l.variant == i)
  {
    more := labels;
    var v := lo;
    while v <= hi
      invariant v <= hi + 1 || v == lo
      invariant forall l :: l in more <==> l in labels || (lo <= l.value < v && l.variant == i)
      decreases hi - v
    {
      more := more + [Label(v, i)];
      v := v + 1;
    }
  }

  // ----- against first match

  /** No tag fits two patterns other than the wildcard, and there is at most one wildcard. */
  ghost predicate Disjoint(variants: seq<Variant>) {
    forall i, j :: 0 <= i < j < |variants| ==>
      && !(variants[i].pattern.Wildcard? && variants[j].pattern.Wildcard?)
      && forall tag :: !variants[i].pattern.Wildcard? && !variants[j].pattern.Wildcard? && Matches(variants[i].pattern, tag) ==>
           !Matches(variants[j].pattern, tag)
  }

  lemma {:induction false} FindLabelIs(labels: seq<Label>, tag: int)
    ensures FindLabel(labels, tag).Some? <==> exists l :: l in labels && l.value == tag
    ensures FindLabel(labels, tag).Some? ==> Label(tag, FindLabel(labels, tag).value) in labels
  {
    if labels != [] {
      FindLabelIs(labels[1..], tag);
      if l :| l in labels && l.value == tag && labels[0].value != tag {
        assert l in labels[1..];
      }
    }
  }

  lemma {:induction false} FindGuardIs(guards: seq<Guard>, tag: int)
    ensures FindGuard(guards, tag).Some? <==> exists g :: g in guards && g.lo <= tag <= g.hi
    ensures FindGuard(guards, tag).Some? ==> exists g :: g in guards && g.lo <= tag <= g.hi && g.variant == FindGuard(guards, tag).value
  {
    if guards != [] {
      FindGuardIs(guards[1..], tag);
      if g :| g in guards && g.lo <= tag <= g.hi && !(guards[0].lo <= tag <= guards[0].hi) {
        assert g in guards[1..];
      }
      assert guards[0] in guards;
    }
  }

  lemma {:induction false} SelectIs(variants: seq<Variant>, tag: int)
    ensures var i := Select(variants, tag);
            && (i < |variants| ==> Matches(variants[i].pattern, tag))
            && forall k :: 0 <= k < i ==> !Matches(variants[k].pattern, tag)
  {
    if variants != [] {
      SelectIs(variants[1..], tag);
    }
  }

  /** The switch picks the one pattern that fits, wherever it stands, and else the wildcard. */
  lemma {:induction false} SwitchPicks(variants: seq<Variant>, s: Switch, tag: int)
    requires Lowers(variants, |variants|, s) && Disjoint(variants)
    ensures forall i :: 0 <= i < |variants| && !variants[i].pattern.Wildcard? && Matches(variants[i].pattern, tag) ==>
              Selected(s, tag) == Some(i)
    ensures (forall i :: 0 <= i < |variants| && Matches(variants[i].pattern, tag) ==> variants[i].pattern.Wildcard?) ==>
              Selected(s, tag) == s.wildcard
  {
    FindLabelIs(s.labels, tag);
    FindGuardIs(s.guards, tag);
    var found, guard := FindLabel(s.labels, tag), FindGuard(s.guards, tag);
    if found.Some? {
      assert IsLabel(variants, |variants|, Label(tag, found.value));
    }
    if guard.Some? {
      var g :| g in s.guards && g.lo <= tag <= g.hi && g.variant == guard.value;
      assert IsGuard(variants, |variants|, g);
      assert Matches(variants[guard.value].pattern, tag);
    }
    forall i | 0 <= i < |variants| && !variants[i].pattern.Wildcard? && Matches(variants[i].pattern, tag)
      ensures Selected(s, tag) == Some(i)
    {
      if Deferred(variants[i].pattern) {
        var g := Guard(variants[i].pattern.start, variants[i].pattern.end, i);
        assert g in s.guards;
      } else {
        assert Label(tag, i) in s.labels;
      }
    }
  }

  /** For disjoint patterns the two backends agree on a tag unless it fits a pattern that stands after
      the wildcard. */
  lemma {:induction false} AgreeOnTag(variants: seq<Variant>, s: Switch, tag: int)
    requires Lowers(variants, |variants|, s) && Disjoint(variants)
    ensures Selected(s, tag) == FirstMatch(variants, tag) <==>
            !exists w, i :: 0 <= w < i < |variants| && variants[w].pattern.Wildcard? && Matches(variants[i].pattern, tag)
  {
    SwitchPicks(variants, s, tag);
    SelectIs(variants, tag);
    var k := Select(variants, tag);
    if w, i :| 0 <= w < i < |variants| && variants[w].pattern.Wildcard? && Matches(variants[i].pattern, tag) {
      assert !variants[i].pattern.Wildcard?;
      assert Selected(s, tag) == Some(i);
      assert Matches(variants[w].pattern, tag) && k <= w;
    } else if k < |variants| && !variants[k].pattern.Wildcard? {
      assert Selected(s, tag) == Some(k);
    } else if k < |variants| {
      forall i | 0 <= i < |variants| && Matches(variants[i].pattern, tag) ensures variants[i].pattern.Wildcard? {
        assert i >= k;
      }
      assert Selected(s, tag) == s.wildcard;
    }
  }

  predicate Fits(p: Pattern) {
    p.Range? ==> p.start <= p.end
  }

  /** They agree on every tag exactly when nothing that can match stands after the wildcard. */
  lemma {:induction false} AgreeEverywhere(variants: seq<Variant>, s: Switch)
    requires Lowers(variants, |variants|, s) && Disjoint(variants)
    ensures (forall tag :: Selected(s, tag) == FirstMatch(variants, tag)) <==>
            forall w, i :: 0 <= w < i < |variants| && variants[w].pattern.Wildcard? ==> !Fits(variants[i].pattern)
  {
    forall tag ensures Selected(s, tag) == FirstMatch(variants, tag) <==>
            !exists w, i :: 0 <= w < i < |variants| && variants[w].pattern.Wildcard? && Matches(variants[i].pattern, tag)
    {
      AgreeOnTag(variants, s, tag);
    }
    if w, i :| 0 <= w < i < |variants| && variants[w].pattern.Wildcard? && Fits(variants[i].pattern) {
      var p := variants[i].pattern;
      var tag := if p.Exact? then p.value else if p.Range? then p.start else 0;
      assert Matches(p, tag);
      assert Selected(s, tag) != FirstMatch(variants, tag);
    } else {
      forall tag ensures Selected(s, tag) == FirstMatch(variants, tag) {
        assert forall i :: 0 <= i < |variants| && Matches(variants[i].pattern, tag) ==> Fits(variants[i].pattern);
      }
    }
  }
}

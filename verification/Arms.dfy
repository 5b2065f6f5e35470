/** Which arm a dispatch takes and what it leaves: the first one in declaration order with the state and the event,
    and that one only, even where its guard is false and a later arm's is true. */
module Arms {
  import opened Outcome
  import opened StateMachine
  import TwoStep

  predicate First(ts: seq<Transition>, i: nat, tag: nat, event: nat) {
    && i < |ts| && ts[i].src == tag && ts[i].event == event
    && forall j :: 0 <= j < i ==> !(ts[j].src == tag && ts[j].event == event)
  }

  predicate FirstChild(ts: seq<ChildTransition>, i: nat, state: nat, event: nat) {
    && i < |ts| && ts[i].src == state && ts[i].event == event
    && forall j :: 0 <= j < i ==> !(ts[j].src == state && ts[j].event == event)
  }

  /** The machine is in the state dst, with the children of c that have a field there. */
  ghost predicate Enters(m: Machine, c: Config, dst: nat, c': Config) {
    && c'.tag == dst
    && (forall f :: f in c'.child <==> f in c.child && dst in m.fields && f in m.fields[dst])
    && (forall f :: f in c'.child && f in c.child ==> c'.child[f] == c.child[f])
  }

  /** The first arm for the state and the event has a true guard and leads to another state. */
  ghost predicate Goes(m: Machine, c: Config, event: nat, c': Config) {
    exists i: nat :: First(m.transitions, i, c.tag, event) && Holds(m.transitions[i].guard, c)
      && m.transitions[i].effect.Goto? && Enters(m, c, m.transitions[i].effect.dst, c')
  }

  /** The child has the event, and its first arm for the state and the event a true guard. */
  ghost predicate ChildGoes(ch: Child, state: nat, event: nat, s: nat) {
    event < ch.events
    && exists i: nat :: FirstChild(ch.transitions, i, state, event) && ch.transitions[i].guard && ch.transitions[i].dst == s
  }

  /** A change of the child is followed by child_state_changed, if the machine has it and takes it. */
  ghost predicate Follows(m: Machine, mid: Config, changed: bool, c': Config) {
    if changed && m.changed.Some? && exists d :: Goes(m, mid, m.changed.value, d) then Goes(m, mid, m.changed.value, c')
    else c' == mid
  }

  ghost predicate Forwards(m: Machine, c: Config, f: string, param: nat, c': Config) {
    if f in c.child && f in m.children then
      exists s: nat :: ChildGoes(m.children[f], c.child[f], param, s)
        && Follows(m, Config(c.tag, c.child[f := s]), s != c.child[f], c')
    else c' == c
  }

  /** The first arm for the state and the event has a true guard and forwards to a child. */
  ghost predicate Delegates(m: Machine, c: Config, event: nat, param: nat, c': Config) {
    exists i: nat :: First(m.transitions, i, c.tag, event) && Holds(m.transitions[i].guard, c)
      && m.transitions[i].effect.Delegate? && Forwards(m, c, m.transitions[i].effect.field, param, c')
  }

  lemma {:induction false} ArmIs(ts: seq<Transition>, tag: nat, event: nat, i: nat)
    ensures First(ts, i, tag, event) <==> i == Arm(ts, tag, event) < |ts|
  {
    if ts != [] && !(ts[0].src == tag && ts[0].event == event) {
      if i > 0 {
        ArmIs(ts[1..], tag, event, i - 1);
        FirstTail(ts, i, tag, event);
      }
    }
  }

  lemma {:induction false} FirstTail(ts: seq<Transition>, i: nat, tag: nat, event: nat)
    requires i > 0 && ts != []
    ensures First(ts, i, tag, event) <==>
            !(ts[0].src == tag && ts[0].event == event) && First(ts[1..], i - 1, tag, event)
  {
    if First(ts[1..], i - 1, tag, event) && !(ts[0].src == tag && ts[0].event == event) {
      forall j | 0 <= j < i ensures !(ts[j].src == tag && ts[j].event == event) {
        if j > 0 {
          assert ts[1..][j - 1] == ts[j];
        }
      }
    }
    if First(ts, i, tag, event) {
      forall j | 0 <= j < i - 1 ensures !(ts[1..][j].src == tag && ts[1..][j].event == event) {
        assert ts[1..][j] == ts[j + 1];
      }
    }
  }

  lemma {:induction false} ChildArmIs(ts: seq<ChildTransition>, state: nat, event: nat, i: nat)
    ensures FirstChild(ts, i, state, event) <==> i == ChildArm(ts, state, event) < |ts|
  {
    if ts != [] && !(ts[0].src == state && ts[0].event == event) {
      if i > 0 {
        ChildArmIs(ts[1..], state, event, i - 1);
        FirstChildTail(ts, i, state, event);
      }
    }
  }

  lemma {:induction false} FirstChildTail(ts: seq<ChildTransition>, i: nat, state: nat, event: nat)
    requires i > 0 && ts != []
    ensures FirstChild(ts, i, state, event) <==>
            !(ts[0].src == state && ts[0].event == event) && FirstChild(ts[1..], i - 1, state, event)
  {
    if FirstChild(ts[1..], i - 1, state, event) && !(ts[0].src == state && ts[0].event == event) {
      forall j | 0 <= j < i ensures !(ts[j].src == state && ts[j].event == event) {
        if j > 0 {
          assert ts[1..][j - 1] == ts[j];
        }
      }
    }
    if FirstChild(ts, i, state, event) {
      forall j | 0 <= j < i - 1 ensures !(ts[1..][j].src == state && ts[1..][j].event == event) {
        assert ts[1..][j] == ts[j + 1];
      }
    }
  }

  lemma {:induction false} CopiedIs(m: Machine, c: Config, dst: nat, c': Config)
    ensures Enters(m, c, dst, c') <==> c' == Copied(m, c, dst)
  {
    var d := Copied(m, c, dst);
    assert Enters(m, c, dst, d);
    if Enters(m, c, dst, c') {
      assert c'.child.Keys == d.child.Keys;
      assert c'.child == d.child;
    }
  }

  /** A child takes an event exactly in these cases. */
  lemma {:induction false} ChildDispatchIs(ch: Child, state: nat, event: nat, s: nat)
    ensures ChildDispatch(ch, state, event) == Some(s) <==> ChildGoes(ch, state, event, s)
  {
    var k := ChildArm(ch.transitions, state, event);
    ChildArmIs(ch.transitions, state, event, k);
    if ChildGoes(ch, state, event, s) {
      var i: nat :| FirstChild(ch.transitions, i, state, event) && ch.transitions[i].guard && ch.transitions[i].dst == s;
      ChildArmIs(ch.transitions, state, event, i);
    }
  }

  /** The model's child takes its first arm for the state and the event, whatever the guard. */
  lemma {:induction false} ModelChildIs(ch: Child, state: nat, event: nat, s: nat)
    ensures TwoStep.ChildNext(ch, state, event) == Some(s) <==>
            exists i: nat :: FirstChild(ch.transitions, i, state, event) && ch.transitions[i].dst == s
  {
    var k := ChildArm(ch.transitions, state, event);
    ChildArmIs(ch.transitions, state, event, k);
    if i: nat :| FirstChild(ch.transitions, i, state, event) && ch.transitions[i].dst == s {
      ChildArmIs(ch.transitions, state, event, i);
    }
  }

  /** A plain event leads to another configuration exactly in these cases. */
  lemma {:induction false} PlainIs(m: Machine, c: Config, event: nat, c': Config)
    ensures DispatchPlain(m, c, event) == Some(c') <==> Goes(m, c, event, c')
  {
    var k := Arm(m.transitions, c.tag, event);
    ArmIs(m.transitions, c.tag, event, k);
    if k < |m.transitions| && m.transitions[k].effect.Goto? {
      CopiedIs(m, c, m.transitions[k].effect.dst, c');
    }
    if Goes(m, c, event, c') {
      var i: nat :| First(m.transitions, i, c.tag, event) && Holds(m.transitions[i].guard, c)
        && m.transitions[i].effect.Goto? && Enters(m, c, m.transitions[i].effect.dst, c');
      ArmIs(m.transitions, c.tag, event, i);
    }
  }

  lemma {:induction false} SettleIs(m: Machine, mid: Config, changed: bool, c': Config)
    ensures Follows(m, mid, changed, c') <==> c' == Settle(m, mid, changed)
  {
    if changed && m.changed.Some? {
      var r := DispatchPlain(m, mid, m.changed.value);
      PlainIs(m, mid, m.changed.value, c');
      if r.Some? {
        PlainIs(m, mid, m.changed.value, r.value);
      } else if exists d :: Goes(m, mid, m.changed.value, d) {
        var d :| Goes(m, mid, m.changed.value, d);
        PlainIs(m, mid, m.changed.value, d);
      }
    }
  }

  lemma {:induction false} ForwardIs(m: Machine, c: Config, f: string, param: nat, c': Config)
    ensures Forward(m, c, f, param) == Some(c') <==> Forwards(m, c, f, param, c')
  {
    if f in c.child && f in m.children {
      var r := ChildDispatch(m.children[f], c.child[f], param);
      if r.Some? {
        ChildDispatchIs(m.children[f], c.child[f], param, r.value);
        SettleIs(m, Config(c.tag, c.child[f := r.value]), r.value != c.child[f], c');
      }
      if Forwards(m, c, f, param, c') {
        var s: nat :| ChildGoes(m.children[f], c.child[f], param, s)
          && Follows(m, Config(c.tag, c.child[f := s]), s != c.child[f], c');
        ChildDispatchIs(m.children[f], c.child[f], param, s);
      }
    }
  }

  /** A dispatch succeeds, and leaves c', exactly if the first arm with the state and the event has a true guard
      and leads there, or forwards to its child with that outcome. Otherwise it is an error. */
  lemma {:induction false} DispatchIs(m: Machine, c: Config, event: nat, param: nat, c': Config)
    ensures Dispatch(m, c, event, param) == Some(c') <==> Goes(m, c, event, c') || Delegates(m, c, event, param, c')
  {
    var k := Arm(m.transitions, c.tag, event);
    ArmIs(m.transitions, c.tag, event, k);
    if k < |m.transitions| {
      match m.transitions[k].effect
      case Goto(dst) => CopiedIs(m, c, dst, c');
      case Delegate(f) => ForwardIs(m, c, f, param, c');
    }
    if Goes(m, c, event, c') {
      var i: nat :| First(m.transitions, i, c.tag, event) && Holds(m.transitions[i].guard, c)
        && m.transitions[i].effect.Goto? && Enters(m, c, m.transitions[i].effect.dst, c');
      ArmIs(m.transitions, c.tag, event, i);
    }
    if Delegates(m, c, event, param, c') {
      var i: nat :| First(m.transitions, i, c.tag, event) && Holds(m.transitions[i].guard, c)
        && m.transitions[i].effect.Delegate? && Forwards(m, c, m.transitions[i].effect.field, param, c');
      ArmIs(m.transitions, c.tag, event, i);
    }
  }

  /** Of the arm alone: if it is the first one for the state and the event, its guard decides, unless its child
      refuses; if there is none, the event is refused. */
  lemma {:induction false} GuardDecides(m: Machine, c: Config, event: nat, param: nat, i: nat)
    ensures First(m.transitions, i, c.tag, event) && m.transitions[i].effect.Goto? ==>
              (Dispatch(m, c, event, param).Some? <==> Holds(m.transitions[i].guard, c))
    ensures First(m.transitions, i, c.tag, event) && m.transitions[i].effect.Delegate? ==>
              var f := m.transitions[i].effect.field;
              (Dispatch(m, c, event, param).Some? <==>
               && Holds(m.transitions[i].guard, c)
               && (f in c.child && f in m.children ==> exists s: nat :: ChildGoes(m.children[f], c.child[f], param, s)))
    ensures (forall j :: 0 <= j < |m.transitions| ==> m.transitions[j].src != c.tag || m.transitions[j].event != event) ==>
              Dispatch(m, c, event, param) == None
  {
    var k := Arm(m.transitions, c.tag, event);
    ArmIs(m.transitions, c.tag, event, i);
    if First(m.transitions, i, c.tag, event) && m.transitions[i].effect.Delegate? {
      ChildTakes(m, c, m.transitions[i].effect.field, param);
    }
  }

  lemma {:induction false} ChildTakes(m: Machine, c: Config, f: string, param: nat)
    ensures Forward(m, c, f, param).Some? <==>
            (f in c.child && f in m.children ==> exists s: nat :: ChildGoes(m.children[f], c.child[f], param, s))
  {
    if f in c.child && f in m.children {
      var r := ChildDispatch(m.children[f], c.child[f], param);
      if r.Some? {
        ChildDispatchIs(m.children[f], c.child[f], param, r.value);
      } else if exists s: nat :: ChildGoes(m.children[f], c.child[f], param, s) {
        var s: nat :| ChildGoes(m.children[f], c.child[f], param, s);
        ChildDispatchIs(m.children[f], c.child[f], param, s);
      }
    }
  }

  /** Guards are the usual propositions over the states of the children there are. */
  lemma {:induction false} GuardsAre(g: Guard, h: Guard, f: string, s: nat, c: Config)
    ensures Holds(Always, c)
    ensures Holds(InState(f, s), c) <==> c.child.Keys >= {f} && c.child[f] == s
    ensures Holds(Not(g), c) <==> !Holds(g, c)
    ensures Holds(Both(g, h), c) <==> Holds(g, c) && Holds(h, c)
    ensures Holds(Either(g, h), c) <==> Holds(g, c) || Holds(h, c)
  {
  }

  /** A new machine has a new child in every field of its state. */
  lemma {:induction false} FreshIs(m: Machine, tag: nat, f: string)
    requires Valid(m)
    ensures Fresh(m, tag).tag == tag
    ensures f in Fresh(m, tag).child <==> tag in m.fields && f in m.fields[tag]
    ensures f in Fresh(m, tag).child ==> f in m.children && Fresh(m, tag).child[f] == m.children[f].initial
  {
  }

  /** Two arms with exclusive guards for one state and event: the first is taken where its guard holds, and nothing
      is where the second's does, though the model then takes the second. */
  lemma {:induction false} ExclusiveGuardsByHand(m: Machine, field: string, s: nat, t: nat, a: nat, b: nat, c: Config, event: nat, param: nat, bound: nat)
    requires Valid(m) && FieldsOf(m, a) == {} && FieldsOf(m, b) == {}
    requires m.transitions == [Transition(c.tag, event, InState(field, s), Goto(a)), Transition(c.tag, event, InState(field, t), Goto(b))]
    requires field in c.child
    ensures c.child[field] == s ==> Dispatch(m, c, event, param) == Some(Config(a, map[]))
    ensures c.child[field] != s ==> Dispatch(m, c, event, param) == None
    ensures c.child[field] == t ==> TwoStep.Step(m, bound, c, Config(b, map[]), 1, 0)
  {
    assert First(m.transitions, 0, c.tag, event);
    GuardDecides(m, c, event, param, 0);
    if c.child[field] == s {
      assert Enters(m, c, a, Config(a, map[]));
      DispatchIs(m, c, event, param, Config(a, map[]));
    }
    if c.child[field] == t {
      assert Fresh(m, b) == Config(b, map[]);
    }
  }
}

/** The TLA+ model of a state machine, and how the generated dispatch relates to it. */
module TwoStep {
  import opened Outcome
  import opened StateMachine

  // ----- the model's next-state relation

  /** The child's dispatch operator, which knows no guards. */
  function ChildNext(ch: Child, state: nat, event: nat): Option<nat> {
    var i := ChildArm(ch.transitions, state, event);
    if i == |ch.transitions| then None else Some(ch.transitions[i].dst)
  }

  /** Transition i taken, for some event number below the bound where it delegates. A delegated event
      ignores the guard, and entering a state creates new children. */
  predicate Step(m: Machine, bound: nat, c: Config, c': Config, i: nat, ev: nat)
    requires Valid(m)
  {
    && i < |m.transitions| && m.transitions[i].src == c.tag
    && match m.transitions[i].effect
       case Goto(dst) => Holds(m.transitions[i].guard, c) && c' == Fresh(m, dst)
       case Delegate(f) =>
         && ev < bound && f in c.child && f in m.children
         && var s := ChildNext(m.children[f], c.child[f], ev);
            s.Some? && c' == c.(child := c.child[f := s.value])
  }

  ghost predicate Next(m: Machine, bound: nat, c: Config, c': Config)
    requires Valid(m)
  {
    exists i: nat, ev: nat :: Step(m, bound, c, c', i, ev)
  }

  ghost predicate IsPath(m: Machine, bound: nat, path: seq<Config>)
    requires Valid(m)
  {
    && path != [] && path[0] == Fresh(m, m.initial)
    && forall k :: 0 <= k < |path| - 1 ==> Next(m, bound, path[k], path[k + 1])
  }

  lemma {:induction false} PathStep(m: Machine, bound: nat, path: seq<Config>, c: Config)
    requires Valid(m) && IsPath(m, bound, path) && Next(m, bound, path[|path| - 1], c)
    ensures IsPath(m, bound, path + [c])
  {
    var longer := path + [c];
    forall k | 0 <= k < |longer| - 1 ensures Next(m, bound, longer[k], longer[k + 1]) {
      if k < |path| - 1 {
        assert longer[k] == path[k] && longer[k + 1] == path[k + 1];
      }
    }
  }

  // ----- runs of the generated code

  /** Events in order, each with the child event number it may carry. */
  type Inputs = seq<(nat, nat)>

  function After(m: Machine, inputs: Inputs): Config
    requires Valid(m)
  {
    if inputs == [] then Fresh(m, m.initial)
    else
      var c, e := After(m, inputs[..|inputs| - 1]), inputs[|inputs| - 1];
      match Dispatch(m, c, e.0, e.1) case Some(c') => c' case None => c
  }

  /** The states seen between dispatches. */
  function Trace(m: Machine, inputs: Inputs): (t: seq<Config>)
    requires Valid(m)
    ensures |t| == |inputs| + 1 && t[|inputs|] == After(m, inputs)
  {
    if inputs == [] then [After(m, [])] else Trace(m, inputs[..|inputs| - 1]) + [After(m, inputs)]
  }

  /** Every child's event numbers are below the model's bound. */
  predicate BoundCovers(m: Machine, bound: nat) {
    forall f :: f in m.children ==> m.children[f].events <= bound
  }

  /** No transition enters a state with children. */
  predicate NoChildrenEntered(m: Machine) {
    forall i :: 0 <= i < |m.transitions| && m.transitions[i].effect.Goto? ==> FieldsOf(m, m.transitions[i].effect.dst) == {}
  }

  predicate Typed(m: Machine, c: Config) {
    c.child.Keys == FieldsOf(m, c.tag)
  }

  lemma {:induction false} DispatchTyped(m: Machine, c: Config, event: nat, param: nat)
    requires Valid(m) && Typed(m, c)
    ensures Dispatch(m, c, event, param).Some? ==> Typed(m, Dispatch(m, c, event, param).value)
  {
    var i := Arm(m.transitions, c.tag, event);
    if i < |m.transitions| {
      assert ValidTransition(m, m.transitions[i]);
      if m.changed.Some? {
        var j := Arm(m.transitions, c.tag, m.changed.value);
        assert j < |m.transitions| ==> ValidTransition(m, m.transitions[j]);
      }
    }
  }

  lemma {:induction false} PlainIsStep(m: Machine, bound: nat, c: Config, event: nat)
    requires Valid(m) && NoChildrenEntered(m) && DispatchPlain(m, c, event).Some?
    ensures Next(m, bound, c, DispatchPlain(m, c, event).value)
  {
    var i := Arm(m.transitions, c.tag, event);
    assert FieldsOf(m, m.transitions[i].effect.dst) == {};
    assert Copied(m, c, m.transitions[i].effect.dst) == Fresh(m, m.transitions[i].effect.dst);
    assert Step(m, bound, c, DispatchPlain(m, c, event).value, i, 0);
  }

  /** A transition to another state is the model's transition exactly when every child it carries over is in
      its initial state. */
  lemma {:induction false} GotoIsStepIff(m: Machine, bound: nat, c: Config, i: nat, ev: nat)
    requires Valid(m) && Typed(m, c) && i < |m.transitions| && m.transitions[i].effect.Goto?
    requires m.transitions[i].src == c.tag && Holds(m.transitions[i].guard, c)
    ensures var dst := m.transitions[i].effect.dst;
            && FieldsOf(m, dst) <= c.child.Keys && FieldsOf(m, dst) <= m.children.Keys
            && (Step(m, bound, c, Copied(m, c, dst), i, ev) <==>
                forall f :: f in FieldsOf(m, dst) ==> c.child[f] == m.children[f].initial)
  {
    var dst := m.transitions[i].effect.dst;
    assert ValidTransition(m, m.transitions[i]);
    var a, b := Copied(m, c, dst), Fresh(m, dst);
    assert a.child.Keys == b.child.Keys == FieldsOf(m, dst);
    if a == b {
      forall f | f in FieldsOf(m, dst) ensures c.child[f] == m.children[f].initial {
        assert a.child[f] == b.child[f];
      }
    } else {
      assert exists f :: f in FieldsOf(m, dst) && a.child[f] != b.child[f] by {
        assert a.child != b.child;
      }
    }
  }

  /** Where the model is between the two steps of a dispatch; the old configuration if there is one step. */
  function Between(m: Machine, c: Config, event: nat, param: nat): Config {
    var i := Arm(m.transitions, c.tag, event);
    if i == |m.transitions| || !Holds(m.transitions[i].guard, c) then c
    else match m.transitions[i].effect
    case Goto(_) => c
    case Delegate(f) =>
      if f !in c.child || f !in m.children || ChildDispatch(m.children[f], c.child[f], param).None? then c
      else
        var s := ChildDispatch(m.children[f], c.child[f], param).value;
        var c' := c.(child := c.child[f := s]);
        if m.changed.Some? && s != c.child[f] && DispatchPlain(m, c', m.changed.value).Some? then c' else c
  }

  /** A dispatch that succeeds is one step of the model, or two: the child moves, then
      child_state_changed is handled. In between the machine is still in its old state. */
  lemma {:induction false} DispatchIsSteps(m: Machine, bound: nat, c: Config, event: nat, param: nat) returns (mid: Option<Config>)
    requires Valid(m) && NoChildrenEntered(m) && BoundCovers(m, bound) && Typed(m, c)
    requires Dispatch(m, c, event, param).Some?
    ensures mid.None? ==> Next(m, bound, c, Dispatch(m, c, event, param).value)
    ensures mid.Some? ==>
              && Next(m, bound, c, mid.value) && Next(m, bound, mid.value, Dispatch(m, c, event, param).value)
              && mid.value.tag == c.tag && m.changed.Some?
              && DispatchPlain(m, mid.value, m.changed.value) == Dispatch(m, c, event, param)
    ensures Between(m, c, event, param) == if mid.Some? then mid.value else c
  {
    mid := None;
    var i := Arm(m.transitions, c.tag, event);
    var t := m.transitions[i];
    assert ValidTransition(m, t);
    if t.effect.Goto? {
      assert DispatchPlain(m, c, event) == Dispatch(m, c, event, param);
      PlainIsStep(m, bound, c, event);
    } else {
      var f := t.effect.field;
      var s := ChildDispatch(m.children[f], c.child[f], param).value;
      var c' := c.(child := c.child[f := s]);
      assert Step(m, bound, c, c', i, param);
      if m.changed.Some? && s != c.child[f] && DispatchPlain(m, c', m.changed.value).Some? {
        mid := Some(c');
        PlainIsStep(m, bound, c', m.changed.value);
      }
    }
  }

  // ----- what carries over

  /** A sequence without immediate repetitions. */
  function Destutter(ts: seq<nat>): (r: seq<nat>)
    ensures ts != [] ==> r != [] && r[|r| - 1] == ts[|ts| - 1]
  {
    if |ts| <= 1 then ts
    else
      var r := Destutter(ts[..|ts| - 1]);
      if ts[|ts| - 1] == ts[|ts| - 2] then r else r + [ts[|ts| - 1]]
  }

  function Tags(cs: seq<Config>): (ts: seq<nat>)
    ensures |ts| == |cs|
  {
    seq(|cs|, i requires 0 <= i < |cs| => cs[i].tag)
  }

  lemma {:induction false} TagsSnoc(cs: seq<Config>, c: Config)
    requires cs != []
    ensures Destutter(Tags(cs + [c])) ==
            if c.tag == cs[|cs| - 1].tag then Destutter(Tags(cs)) else Destutter(Tags(cs)) + [c.tag]
  {
    var ts := Tags(cs + [c]);
    assert ts[..|ts| - 1] == Tags(cs);
  }

  /** Every run of the generated code is a run of the model that ends in the same configuration and passes
      through the same states, up to repetition. */
  lemma {:induction false} Simulation(m: Machine, bound: nat, inputs: Inputs) returns (path: seq<Config>)
    requires Valid(m) && NoChildrenEntered(m) && BoundCovers(m, bound)
    ensures IsPath(m, bound, path) && path[|path| - 1] == After(m, inputs) && Typed(m, After(m, inputs))
    ensures Destutter(Tags(path)) == Destutter(Tags(Trace(m, inputs)))
  {
    if inputs == [] {
      path := [Fresh(m, m.initial)];
    } else {
      var before, e := inputs[..|inputs| - 1], inputs[|inputs| - 1];
      path := Simulation(m, bound, before);
      var c, c' := After(m, before), After(m, inputs);
      TagsSnoc(Trace(m, before), c');
      DispatchTyped(m, c, e.0, e.1);
      if Dispatch(m, c, e.0, e.1).Some? {
        path := SimulateDispatch(m, bound, path, e.0, e.1);
      }
    }
  }

  lemma {:induction false} SimulateDispatch(m: Machine, bound: nat, path: seq<Config>, event: nat, param: nat) returns (longer: seq<Config>)
    requires Valid(m) && NoChildrenEntered(m) && BoundCovers(m, bound)
    requires IsPath(m, bound, path) && Typed(m, path[|path| - 1]) && Dispatch(m, path[|path| - 1], event, param).Some?
    ensures var c' := Dispatch(m, path[|path| - 1], event, param).value;
            && IsPath(m, bound, longer) && longer[|longer| - 1] == c'
            && Destutter(Tags(longer)) ==
               if c'.tag == path[|path| - 1].tag then Destutter(Tags(path)) else Destutter(Tags(path)) + [c'.tag]
  {
    var c := path[|path| - 1];
    var c' := Dispatch(m, c, event, param).value;
    var mid := DispatchIsSteps(m, bound, c, event, param);
    longer := path;
    if mid.Some? {
      PathStep(m, bound, longer, mid.value);
      TagsSnoc(longer, mid.value);
      longer := longer + [mid.value];
    }
    PathStep(m, bound, longer, c');
    TagsSnoc(longer, c');
    longer := longer + [c'];
  }

  /** What holds of every configuration of the model holds of the generated code between dispatches. */
  lemma {:induction false} SafetyTransfers(m: Machine, bound: nat, safe: Config -> bool, inputs: Inputs)
    requires Valid(m) && NoChildrenEntered(m) && BoundCovers(m, bound)
    requires forall path :: IsPath(m, bound, path) ==> safe(path[|path| - 1])
    ensures safe(After(m, inputs))
  {
    var path := Simulation(m, bound, inputs);
  }

  /** So does what holds of the states every run of the model passes through. */
  lemma {:induction false} StateOrderTransfers(m: Machine, bound: nat, allowed: seq<nat> -> bool, inputs: Inputs)
    requires Valid(m) && NoChildrenEntered(m) && BoundCovers(m, bound)
    requires forall path :: IsPath(m, bound, path) ==> allowed(Destutter(Tags(path)))
    ensures allowed(Destutter(Tags(Trace(m, inputs))))
  {
    var path := Simulation(m, bound, inputs);
  }

  // ----- infinite runs

  /** Endless events, and the events before the k-th. */
  type Events = nat -> (nat, nat)

  ghost function Before(events: Events, k: nat): (inputs: Inputs)
    ensures |inputs| == k && forall i :: 0 <= i < k ==> inputs[i] == events(i)
  {
    if k == 0 then [] else Before(events, k - 1) + [events(k - 1)]
  }

  /** The generated code's configuration after k events. */
  ghost function At(m: Machine, events: Events, k: nat): Config
    requires Valid(m)
  {
    After(m, Before(events, k))
  }

  /** The model can move to another configuration. */
  ghost predicate Enabled(m: Machine, bound: nat, c: Config)
    requires Valid(m)
  {
    exists c' :: Next(m, bound, c, c') && c' != c
  }

  /** A step of the model, or none. */
  ghost predicate Moves(m: Machine, bound: nat, c: Config, c': Config)
    requires Valid(m)
  {
    c' == c || Next(m, bound, c, c')
  }

  /** What the specification allows: steps of the model and stuttering. */
  ghost predicate IsBehaviour(m: Machine, bound: nat, b: nat -> Config)
    requires Valid(m)
  {
    && b(0) == Fresh(m, m.initial)
    && forall k: nat :: Moves(m, bound, b(k), b(k + 1))
  }

  ghost predicate EnabledAt(m: Machine, bound: nat, b: nat -> Config, j: nat)
    requires Valid(m)
  {
    Enabled(m, bound, b(j))
  }

  ghost predicate AlwaysEnabled(m: Machine, bound: nat, b: nat -> Config, from: nat)
    requires Valid(m)
  {
    forall j: nat :: j >= from ==> EnabledAt(m, bound, b, j)
  }

  predicate ChangesAt(b: nat -> Config, j: nat) {
    b(j + 1) != b(j)
  }

  ghost predicate ChangesAfter(b: nat -> Config, from: nat) {
    exists j: nat :: j >= from && ChangesAt(b, j)
  }

  /** Weak fairness of the whole next-state relation. */
  ghost predicate Fair(m: Machine, bound: nat, b: nat -> Config)
    requires Valid(m)
  {
    forall k: nat :: AlwaysEnabled(m, bound, b, k) ==> ChangesAfter(b, k)
  }

  /** After k events the code's next event changes its configuration, or the model could not move on. */
  ghost predicate MovesOrStuck(m: Machine, bound: nat, events: Events, k: nat)
    requires Valid(m)
  {
    At(m, events, k + 1) != At(m, events, k) || !Enabled(m, bound, At(m, events, k))
  }

  ghost predicate MovesLater(m: Machine, bound: nat, events: Events, from: nat)
    requires Valid(m)
  {
    exists k: nat :: k >= from && MovesOrStuck(m, bound, events, k)
  }

  /** That happens again and again. */
  ghost predicate Driven(m: Machine, bound: nat, events: Events)
    requires Valid(m)
  {
    forall k: nat :: MovesLater(m, bound, events, k)
  }

  ghost predicate Reaches(b: nat -> Config, goal: nat -> bool) {
    exists n: nat :: goal(b(n).tag)
  }

  lemma {:induction false} AtNext(m: Machine, events: Events, k: nat)
    requires Valid(m)
    ensures At(m, events, 0) == Fresh(m, m.initial)
    ensures var c, e := At(m, events, k), events(k);
            At(m, events, k + 1) == match Dispatch(m, c, e.0, e.1) case Some(c') => c' case None => c
  {
    var longer := Before(events, k + 1);
    assert longer[..k] == Before(events, k);
  }

  lemma {:induction false} AtTyped(m: Machine, events: Events, k: nat)
    requires Valid(m)
    ensures Typed(m, At(m, events, k))
  {
    if k == 0 {
      AtNext(m, events, 0);
    } else {
      AtTyped(m, events, k - 1);
      AtNext(m, events, k - 1);
      DispatchTyped(m, At(m, events, k - 1), events(k - 1).0, events(k - 1).1);
    }
  }

  /** The model's behaviour behind a run: every event takes two steps, some of them stuttering. */
  ghost function Behind(m: Machine, events: Events, n: nat): Config
    requires Valid(m)
  {
    HalfwayAt(m, events, n / 2, n % 2 == 1)
  }

  ghost function HalfwayAt(m: Machine, events: Events, k: nat, halfway: bool): Config
    requires Valid(m)
  {
    var c, e := At(m, events, k), events(k);
    if !halfway || Dispatch(m, c, e.0, e.1).None? then c else Between(m, c, e.0, e.1)
  }

  lemma {:induction false} HalfwayMoves(m: Machine, bound: nat, events: Events, k: nat)
    requires Valid(m) && NoChildrenEntered(m) && BoundCovers(m, bound)
    ensures var a, b, c := HalfwayAt(m, events, k, false), HalfwayAt(m, events, k, true), HalfwayAt(m, events, k + 1, false);
            && a == At(m, events, k) && c == At(m, events, k + 1) && b.tag == a.tag
            && Moves(m, bound, a, b) && Moves(m, bound, b, c)
  {
    AtNext(m, events, k);
    AtTyped(m, events, k);
    var c, e := At(m, events, k), events(k);
    if Dispatch(m, c, e.0, e.1).Some? {
      var mid := DispatchIsSteps(m, bound, c, e.0, e.1);
    }
  }

  lemma {:induction false} BehindTwice(m: Machine, events: Events, k: nat, n: nat)
    requires Valid(m) && n == 2 * k
    ensures Behind(m, events, n) == HalfwayAt(m, events, k, false)
    ensures Behind(m, events, n + 1) == HalfwayAt(m, events, k, true)
    ensures Behind(m, events, n + 2) == HalfwayAt(m, events, k + 1, false)
  {
    assert n / 2 == k && (n + 1) / 2 == k && (n + 2) / 2 == k + 1;
  }

  ghost predicate AgreesAt(m: Machine, events: Events, b: nat -> Config, n: nat)
    requires Valid(m)
  {
    b(n) == Behind(m, events, n)
  }

  ghost predicate IsBehind(m: Machine, events: Events, b: nat -> Config)
    requires Valid(m)
  {
    forall n: nat :: AgreesAt(m, events, b, n)
  }

  lemma {:induction false} BehindIsBehaviour(m: Machine, bound: nat, events: Events, b: nat -> Config)
    requires Valid(m) && NoChildrenEntered(m) && BoundCovers(m, bound) && IsBehind(m, events, b)
    ensures IsBehaviour(m, bound, b)
  {
    AtNext(m, events, 0);
    assert AgreesAt(m, events, b, 0);
    forall n: nat ensures Moves(m, bound, b(n), b(n + 1)) {
      BehindStep(m, bound, events, n);
      assert AgreesAt(m, events, b, n) && AgreesAt(m, events, b, n + 1);
    }
  }

  lemma {:induction false} BehindStep(m: Machine, bound: nat, events: Events, n: nat)
    requires Valid(m) && NoChildrenEntered(m) && BoundCovers(m, bound)
    ensures Moves(m, bound, Behind(m, events, n), Behind(m, events, n + 1))
  {
    HalfwayMoves(m, bound, events, n / 2);
    NextHalf(n);
  }

  lemma {:induction false} NextHalf(n: nat)
    ensures n % 2 == 0 ==> (n + 1) / 2 == n / 2 && (n + 1) % 2 == 1
    ensures n % 2 == 1 ==> (n + 1) / 2 == n / 2 + 1 && (n + 1) % 2 == 0
  {
  }

  /** An event that changes the configuration changes it in one of its two steps. */
  lemma {:induction false} BehindChanges(m: Machine, bound: nat, events: Events, k: nat, n: nat)
    requires Valid(m) && NoChildrenEntered(m) && BoundCovers(m, bound) && n == 2 * k
    requires MovesOrStuck(m, bound, events, k) && Enabled(m, bound, Behind(m, events, n))
    ensures Behind(m, events, n + 1) != Behind(m, events, n) || Behind(m, events, n + 2) != Behind(m, events, n + 1)
  {
    HalfwayMoves(m, bound, events, k);
    BehindTwice(m, events, k, n);
  }

  lemma {:induction false} BehindIsFair(m: Machine, bound: nat, events: Events, b: nat -> Config)
    requires Valid(m) && NoChildrenEntered(m) && BoundCovers(m, bound) && IsBehind(m, events, b)
    requires Driven(m, bound, events)
    ensures Fair(m, bound, b)
  {
    forall from: nat | AlwaysEnabled(m, bound, b, from) ensures ChangesAfter(b, from) {
      assert MovesLater(m, bound, events, from);
      BehindFairFrom(m, bound, events, b, from);
    }
  }

  lemma {:induction false} BehindFairFrom(m: Machine, bound: nat, events: Events, b: nat -> Config, from: nat)
    requires Valid(m) && NoChildrenEntered(m) && BoundCovers(m, bound) && IsBehind(m, events, b)
    requires MovesLater(m, bound, events, from) && AlwaysEnabled(m, bound, b, from)
    ensures ChangesAfter(b, from)
  {
    var k: nat :| k >= from && MovesOrStuck(m, bound, events, k);
    var n := 2 * k;
    BehindAt(m, events, b, n);
    BehindEnabled(m, bound, b, from, n);
    BehindChangesAt(m, bound, events, b, k, n);
    FirstOrSecond(b, from, n);
  }

  lemma {:induction false} BehindChangesAt(m: Machine, bound: nat, events: Events, b: nat -> Config, k: nat, n: nat)
    requires Valid(m) && NoChildrenEntered(m) && BoundCovers(m, bound) && n == 2 * k
    requires b(n) == Behind(m, events, n) && b(n + 1) == Behind(m, events, n + 1) && b((n + 1) + 1) == Behind(m, events, n + 2)
    requires MovesOrStuck(m, bound, events, k) && Enabled(m, bound, b(n))
    ensures b(n + 1) != b(n) || b((n + 1) + 1) != b(n + 1)
  {
    BehindChanges(m, bound, events, k, n);
  }

  lemma {:induction false} BehindEnabled(m: Machine, bound: nat, b: nat -> Config, from: nat, n: nat)
    requires Valid(m) && AlwaysEnabled(m, bound, b, from) && n >= from
    ensures Enabled(m, bound, b(n))
  {
    assert EnabledAt(m, bound, b, n);
  }

  lemma {:induction false} FirstOrSecond(b: nat -> Config, from: nat, n: nat)
    requires n >= from && (b(n + 1) != b(n) || b((n + 1) + 1) != b(n + 1))
    ensures ChangesAfter(b, from)
  {
    assert ChangesAt(b, n) || ChangesAt(b, n + 1);
  }

  lemma {:induction false} BehindAt(m: Machine, events: Events, b: nat -> Config, n: nat)
    requires Valid(m) && IsBehind(m, events, b)
    ensures b(n) == Behind(m, events, n) && b(n + 1) == Behind(m, events, n + 1) && b((n + 1) + 1) == Behind(m, events, n + 2)
  {
    assert AgreesAt(m, events, b, n) && AgreesAt(m, events, b, n + 1) && AgreesAt(m, events, b, n + 2);
  }

  /** What every fair behaviour of the model reaches, every driven run of the generated code reaches. */
  lemma {:induction false} LivenessTransfers(m: Machine, bound: nat, goal: nat -> bool, events: Events)
    requires Valid(m) && NoChildrenEntered(m) && BoundCovers(m, bound) && Driven(m, bound, events)
    requires forall b: nat -> Config :: IsBehaviour(m, bound, b) && Fair(m, bound, b) ==> Reaches(b, goal)
    ensures exists k: nat :: goal(At(m, events, k).tag)
  {
    var b: nat -> Config := (n: nat) => Behind(m, events, n);
    forall n: nat ensures AgreesAt(m, events, b, n) {
    }
    BehindIsBehaviour(m, bound, events, b);
    BehindIsFair(m, bound, events, b);
    assert Reaches(b, goal);
    var n: nat :| goal(b(n).tag);
    HalfwayMoves(m, bound, events, n / 2);
    assert AgreesAt(m, events, b, n);
    assert goal(At(m, events, n / 2).tag);
  }

  // ----- what does not

  /** State 0 delegates event 0 to a child that moves from 0 to 1, and leaves for state 1 on
      child_state_changed once the child is in 1. */
  const RELAY: Machine := Machine(
    0, map[0 := {"c"}], map["c" := Child(0, 1, [ChildTransition(0, 0, 1, true)])],
    [Transition(0, 0, Always, Delegate("c")), Transition(0, 1, InState("c", 1), Goto(1))], Some(1))

  const START: Config := Config(0, map["c" := 0])
  const BETWEEN: Config := Config(0, map["c" := 1])
  const LEFT: Config := Config(1, map[])

  lemma {:induction false} RelayValid()
    ensures Valid(RELAY) && NoChildrenEntered(RELAY) && BoundCovers(RELAY, 1)
    ensures Fresh(RELAY, 0) == START && Fresh(RELAY, 1) == LEFT
  {
    assert forall i :: 0 <= i < |RELAY.transitions| ==> ValidTransition(RELAY, RELAY.transitions[i]);
  }

  lemma {:induction false} RelayDispatch(c: Config, event: nat, param: nat)
    requires c == START || c == LEFT
    ensures Dispatch(RELAY, START, 0, 0) == Some(LEFT)
    ensures Dispatch(RELAY, c, event, param).Some? ==> Dispatch(RELAY, c, event, param).value == LEFT
  {
    var ts := RELAY.transitions;
    assert ts[1..] == [ts[1]] && ts[1..][1..] == [];
    var ch := RELAY.children["c"].transitions;
    assert ch[1..] == [];
    assert ChildDispatch(RELAY.children["c"], 0, param) == if param == 0 then Some(1) else None;
    assert DispatchPlain(RELAY, BETWEEN, 1) == Some(Copied(RELAY, BETWEEN, 1));
    assert Copied(RELAY, BETWEEN, 1) == LEFT;
    assert START.(child := START.child["c" := 1]) == BETWEEN;
  }

  lemma {:induction false} RelayAfter(inputs: Inputs)
    requires Valid(RELAY)
    ensures After(RELAY, inputs) == START || After(RELAY, inputs) == LEFT
  {
    RelayValid();
    if inputs != [] {
      var before, e := inputs[..|inputs| - 1], inputs[|inputs| - 1];
      RelayAfter(before);
      RelayDispatch(After(RELAY, before), e.0, e.1);
    }
  }

  lemma {:induction false} RelayStep(c: Config, c': Config)
    requires Valid(RELAY) && Next(RELAY, 1, c, c') && c in {START, BETWEEN, LEFT}
    ensures (c == START && c' == BETWEEN) || (c == BETWEEN && c' == LEFT)
  {
    RelayValid();
    var i: nat, ev: nat :| Step(RELAY, 1, c, c', i, ev);
    var ch := RELAY.children["c"].transitions;
    assert ch[1..] == [];
    assert START.(child := START.child["c" := 1]) == BETWEEN;
  }

  lemma {:induction false} RelayPath(path: seq<Config>)
    requires Valid(RELAY) && IsPath(RELAY, 1, path)
    ensures path == [START] || path == [START, BETWEEN] || path == [START, BETWEEN, LEFT]
  {
    RelayValid();
    if |path| > 1 {
      var shorter := path[..|path| - 1];
      forall k | 0 <= k < |shorter| - 1 ensures Next(RELAY, 1, shorter[k], shorter[k + 1]) {
        assert shorter[k] == path[k] && shorter[k + 1] == path[k + 1];
      }
      RelayPath(shorter);
      assert Next(RELAY, 1, path[|path| - 2], path[|path| - 1]);
      RelayStep(path[|path| - 2], path[|path| - 1]);
      assert path == shorter + [path[|path| - 1]];
    }
  }

  /** The model reaches a configuration that the generated code never shows. And a claim about
      configurations on the way does not carry over: every run of the model that gets to state 1 has seen
      the child in 1 before, while the generated code gets there without. */
  lemma {:induction false} OrderOfConfigurationsLost()
    ensures Valid(RELAY) && NoChildrenEntered(RELAY) && BoundCovers(RELAY, 1)
    ensures IsPath(RELAY, 1, [START, BETWEEN]) && forall inputs :: After(RELAY, inputs) != BETWEEN
    ensures forall path: seq<Config> :: IsPath(RELAY, 1, path) && path[|path| - 1].tag == 1 ==> BETWEEN in path
    ensures Trace(RELAY, [(0, 0)]) == [START, LEFT]
  {
    RelayValid();
    forall inputs ensures After(RELAY, inputs) != BETWEEN {
      RelayAfter(inputs);
      assert START.child["c"] != BETWEEN.child["c"];
    }
    forall path: seq<Config> | IsPath(RELAY, 1, path) && path[|path| - 1].tag == 1 ensures BETWEEN in path {
      RelayPath(path);
    }
    var ch := RELAY.children["c"].transitions;
    assert ch[1..] == [] && START.(child := START.child["c" := 1]) == BETWEEN;
    assert Step(RELAY, 1, START, BETWEEN, 0, 0);
    RelayDispatch(START, 0, 0);
    assert After(RELAY, []) == START;
    assert [(0, 0)][..0] == [];
    assert After(RELAY, [(0, 0)]) == LEFT;
  }

  lemma {:induction false} RelayEnabled(c: Config)
    requires Valid(RELAY) && c in {START, BETWEEN}
    ensures Enabled(RELAY, 1, c)
  {
    RelayValid();
    var ch := RELAY.children["c"].transitions;
    assert ch[1..] == [] && START.(child := START.child["c" := 1]) == BETWEEN;
    assert START.child["c"] != BETWEEN.child["c"];
    if c == START {
      assert Step(RELAY, 1, START, BETWEEN, 0, 0);
      assert Next(RELAY, 1, c, BETWEEN);
    } else {
      assert Step(RELAY, 1, BETWEEN, LEFT, 1, 0);
      assert Next(RELAY, 1, c, LEFT);
    }
  }

  lemma {:induction false} RelayOnward(b: nat -> Config, k: nat, n: nat)
    requires Valid(RELAY) && IsBehaviour(RELAY, 1, b) && k <= n && b(k) in {START, BETWEEN, LEFT}
    ensures b(n) in {START, BETWEEN, LEFT}
    ensures b(k) in {BETWEEN, LEFT} ==> b(n) in {BETWEEN, LEFT}
    decreases n - k
  {
    if k < n {
      RelayOnward(b, k, n - 1);
      assert Moves(RELAY, 1, b(n - 1), b((n - 1) + 1));
      if b(n) != b(n - 1) {
        RelayStep(b(n - 1), b(n));
      }
    }
  }

  lemma {:induction false} RelayAlwaysEnabled(b: nat -> Config, k: nat)
    requires Valid(RELAY) && IsBehaviour(RELAY, 1, b) && b(k) in {START, BETWEEN, LEFT}
    requires forall n: nat :: b(n) != LEFT
    ensures AlwaysEnabled(RELAY, 1, b, k)
  {
    forall n: nat | n >= k ensures EnabledAt(RELAY, 1, b, n) {
      RelayOnward(b, k, n);
      RelayEnabled(b(n));
    }
  }

  lemma {:induction false} FairChange(m: Machine, bound: nat, b: nat -> Config, k: nat) returns (j: nat)
    requires Valid(m) && AlwaysEnabled(m, bound, b, k) && Fair(m, bound, b)
    ensures j >= k && b(j + 1) != b(j)
  {
    assert ChangesAfter(b, k);
    j :| j >= k && ChangesAt(b, j);
  }

  lemma {:induction false} RelayMoved(b: nat -> Config, j: nat)
    requires Valid(RELAY) && IsBehaviour(RELAY, 1, b) && b(j) in {START, BETWEEN, LEFT} && b(j + 1) != b(j)
    ensures (b(j) == START && b(j + 1) == BETWEEN) || b(j + 1) == LEFT
  {
    assert Moves(RELAY, 1, b(j), b(j + 1));
    RelayStep(b(j), b(j + 1));
  }

  lemma {:induction false} RelayArrives(b: nat -> Config)
    requires Valid(RELAY) && IsBehaviour(RELAY, 1, b) && Fair(RELAY, 1, b)
    ensures exists n: nat :: b(n) == LEFT
  {
    RelayValid();
    if forall n: nat :: b(n) != LEFT {
      RelayAlwaysEnabled(b, 0);
      var j := FairChange(RELAY, 1, b, 0);
      RelayOnward(b, 0, j);
      RelayMoved(b, j);
      RelayAlwaysEnabled(b, j + 1);
      var i := FairChange(RELAY, 1, b, j + 1);
      RelayOnward(b, j + 1, i);
      RelayMoved(b, i);
      RelayApart();
      assert false;
    }
  }

  lemma {:induction false} RelayApart()
    ensures START != BETWEEN && START != LEFT && BETWEEN != LEFT
  {
    assert START.child["c"] != BETWEEN.child["c"];
  }

  lemma {:induction false} RelayWaits(events: Events, k: nat)
    requires Valid(RELAY) && forall n: nat :: events(n) == (2, 0)
    ensures At(RELAY, events, k) == START
  {
    RelayValid();
    AtNext(RELAY, events, 0);
    if k > 0 {
      RelayWaits(events, k - 1);
      AtNext(RELAY, events, k - 1);
      var ts := RELAY.transitions;
      assert ts[1..] == [ts[1]] && ts[1..][1..] == [];
    }
  }

  /** Fairness of the model is not fairness of the environment: every fair behaviour of the model gets to
      state 1, and the generated code, given events that no transition handles, never does. */
  lemma {:induction false} LivenessLost()
    ensures Valid(RELAY) && NoChildrenEntered(RELAY) && BoundCovers(RELAY, 1)
    ensures forall b: nat -> Config :: IsBehaviour(RELAY, 1, b) && Fair(RELAY, 1, b) ==> Reaches(b, tag => tag == 1)
    ensures forall events: Events, k: nat :: (forall n: nat :: events(n) == (2, 0)) ==> At(RELAY, events, k).tag == 0
  {
    RelayValid();
    forall b: nat -> Config | IsBehaviour(RELAY, 1, b) && Fair(RELAY, 1, b) ensures Reaches(b, tag => tag == 1) {
      RelayArrives(b);
    }
    forall events: Events, k: nat | forall n: nat :: events(n) == (2, 0) ensures At(RELAY, events, k).tag == 0 {
      RelayWaits(events, k);
    }
  }

  /** State 0 delegates event 0 to its child and goes to state 2, which has the same child field, on
      event 1. */
  const CARRY: Machine := Machine(
    0, map[0 := {"c"}, 2 := {"c"}], map["c" := Child(0, 1, [ChildTransition(0, 0, 1, true)])],
    [Transition(0, 0, Always, Delegate("c")), Transition(0, 1, Always, Goto(2))], None)

  /** Entering a state with children is where the two disagree: the generated code carries the child over,
      the model starts a new one. */
  lemma {:induction false} EnteringChildrenDisagrees(bound: nat)
    ensures Valid(CARRY) && !NoChildrenEntered(CARRY)
    ensures After(CARRY, [(0, 0), (1, 0)]) == Config(2, map["c" := 1])
    ensures forall path :: IsPath(CARRY, bound, path) ==> path[|path| - 1] != Config(2, map["c" := 1])
  {
    var ts := CARRY.transitions;
    assert forall i :: 0 <= i < |ts| ==> ValidTransition(CARRY, ts[i]);
    assert ts[1..] == [ts[1]] && ts[1..][1..] == [];
    assert !(FieldsOf(CARRY, ts[1].effect.dst) == {}) by { assert "c" in FieldsOf(CARRY, 2); }
    CarryRun();
    forall path | IsPath(CARRY, bound, path) ensures path[|path| - 1] != Config(2, map["c" := 1]) {
      var c := path[|path| - 1];
      if |path| == 1 {
        assert c == Fresh(CARRY, 0);
      } else {
        assert Next(CARRY, bound, path[|path| - 2], path[|path| - 1]);
        var i: nat, ev: nat :| Step(CARRY, bound, path[|path| - 2], c, i, ev);
        if c.tag == 2 {
          assert c == Fresh(CARRY, 2);
          assert c.child["c"] == 0;
        }
      }
    }
  }

  lemma {:induction false} CarryRun()
    requires Valid(CARRY)
    ensures After(CARRY, [(0, 0), (1, 0)]) == Config(2, map["c" := 1])
  {
    var ts := CARRY.transitions;
    var ch := CARRY.children["c"].transitions;
    assert ts[1..] == [ts[1]] && ch[1..] == [];
    assert After(CARRY, []) == START;
    assert [(0, 0)][..0] == [] && [(0, 0), (1, 0)][..1] == [(0, 0)];
    assert After(CARRY, [(0, 0)]) == BETWEEN by {
      assert START.(child := START.child["c" := 1]) == BETWEEN;
    }
    assert Copied(CARRY, BETWEEN, 2) == Config(2, map["c" := 1]);
  }
}

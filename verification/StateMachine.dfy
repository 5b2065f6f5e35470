/** State machines with delegation to child machines: the generated dispatch, which is one atomic step,
    against the TLA+ model, which takes a second step for child_state_changed. Control skeleton only:
    states, child states and guards over child states. */
module StateMachine {
  import opened Outcome

  datatype ChildTransition = ChildTransition(src: nat, event: nat, dst: nat, guard: bool)

  datatype Child = Child(initial: nat, events: nat, transitions: seq<ChildTransition>)

  /** Guards over child states. */
  datatype Guard =
    | Always
    | InState(field: string, state: nat)
    | Not(g: Guard)
    | Both(l: Guard, r: Guard)
    | Either(l: Guard, r: Guard)

  datatype Effect = Goto(dst: nat) | Delegate(field: string)

  datatype Transition = Transition(src: nat, event: nat, guard: Guard, effect: Effect)

  /** `fields` gives the child fields of each state that has any; `changed` is the number of the
      child_state_changed event, if the machine has it. */
  datatype Machine = Machine(
    initial: nat, fields: map<nat, set<string>>, children: map<string, Child>,
    transitions: seq<Transition>, changed: Option<nat>)

  /** The current state and the states of its children. */
  datatype Config = Config(tag: nat, child: map<string, nat>)

  function FieldsOf(m: Machine, tag: nat): set<string> {
    if tag in m.fields then m.fields[tag] else {}
  }

  predicate Valid(m: Machine) {
    && (forall t :: t in m.fields ==> m.fields[t] <= m.children.Keys)
    && (forall i :: 0 <= i < |m.transitions| ==> ValidTransition(m, m.transitions[i]))
    && (forall i, j :: 0 <= i < |m.transitions| && 0 <= j < |m.transitions| && i != j && m.transitions[i].effect.Delegate? ==>
          m.transitions[i].src != m.transitions[j].src || m.transitions[i].event != m.transitions[j].event)
  }

  /** A delegate forwards to a child of its state, and not on child_state_changed, which carries no event
      to forward; other transitions lead to states whose child fields can be copied. A delegated state
      and event has no other transition. */
  predicate ValidTransition(m: Machine, t: Transition) {
    match t.effect
    case Delegate(f) => f in FieldsOf(m, t.src) && m.changed != Some(t.event)
    case Goto(dst) => FieldsOf(m, dst) <= FieldsOf(m, t.src)
  }

  /** The children of the new state are those of the old one that have a field there. */
  function Copied(m: Machine, c: Config, dst: nat): Config {
    Config(dst, map f | f in FieldsOf(m, dst) && f in c.child :: c.child[f])
  }

  /** A new machine in the given state, with new children. */
  function Fresh(m: Machine, tag: nat): Config
    requires Valid(m)
  {
    Config(tag, map f | f in FieldsOf(m, tag) :: m.children[f].initial)
  }

  predicate Holds(g: Guard, c: Config) {
    match g
    case Always => true
    case InState(f, s) => f in c.child && c.child[f] == s
    case Not(x) => !Holds(x, c)
    case Both(l, r) => Holds(l, c) && Holds(r, c)
    case Either(l, r) => Holds(l, c) || Holds(r, c)
  }

  // ----- the generated dispatch

  /** The first arm for a state and event, or the number of arms. */
  function Arm(ts: seq<Transition>, tag: nat, event: nat): (i: nat)
    ensures i <= |ts|
    ensures i < |ts| ==> ts[i].src == tag && ts[i].event == event
  {
    if ts == [] then 0
    else if ts[0].src == tag && ts[0].event == event then 0
    else 1 + Arm(ts[1..], tag, event)
  }

  function ChildArm(ts: seq<ChildTransition>, state: nat, event: nat): (i: nat)
    ensures i <= |ts|
    ensures i < |ts| ==> ts[i].src == state && ts[i].event == event
  {
    if ts == [] then 0
    else if ts[0].src == state && ts[0].event == event then 0
    else 1 + ChildArm(ts[1..], state, event)
  }

  function ChildDispatch(ch: Child, state: nat, event: nat): Option<nat> {
    var i := ChildArm(ch.transitions, state, event);
    if event >= ch.events || i == |ch.transitions| || !ch.transitions[i].guard then None
    else Some(ch.transitions[i].dst)
  }

  /** Dispatch of an event that is not delegated. */
  function DispatchPlain(m: Machine, c: Config, event: nat): Option<Config> {
    var i := Arm(m.transitions, c.tag, event);
    if i == |m.transitions| || !Holds(m.transitions[i].guard, c) then None
    else match m.transitions[i].effect
    case Goto(dst) => Some(Copied(m, c, dst))
    case Delegate(_) => None
  }

  /** A change of the child is followed by child_state_changed, a failure of which is ignored. */
  function Settle(m: Machine, c: Config, childChanged: bool): Config {
    if m.changed.None? || !childChanged then c
    else match DispatchPlain(m, c, m.changed.value) case Some(c') => c' case None => c
  }

  /** The event with the number `param` goes to the child f. */
  function Forward(m: Machine, c: Config, f: string, param: nat): Option<Config> {
    if f !in c.child || f !in m.children then Some(c)
    else
      match ChildDispatch(m.children[f], c.child[f], param)
      case None => None
      case Some(s) => Some(Settle(m, c.(child := c.child[f := s]), s != c.child[f]))
  }

  /** One dispatch; `param` is the child event number that a delegated event carries. Nothing on an error. */
  function Dispatch(m: Machine, c: Config, event: nat, param: nat): Option<Config> {
    var i := Arm(m.transitions, c.tag, event);
    if i == |m.transitions| || !Holds(m.transitions[i].guard, c) then None
    else match m.transitions[i].effect
    case Goto(dst) => Some(Copied(m, c, dst))
    case Delegate(f) => Forward(m, c, f, param)
  }

  /** The object with its state, which only a successful dispatch replaces. */
  class Instance {
    const m: Machine
    var config: Config

    constructor (m: Machine)
      requires Valid(m)
      ensures this.m == m && config == Fresh(m, m.initial)
    {
      this.m := m;
      config := Fresh(m, m.initial);
    }

    /** A copy to try a delegated event on. */
    constructor Clone(other: Instance)
      ensures m == other.m && config == other.config
    {
      m := other.m;
      config := other.config;
    }

    method Handle(event: nat, param: nat) returns (ok: bool)
      requires Valid(m)
      modifies this
      ensures var r := Dispatch(m, old(config), event, param);
              ok == r.Some? && config == if ok then r.value else old(config)
      decreases if m.changed == Some(event) then 0 else 1
    {
      var i := Arm(m.transitions, config.tag, event);
      if i == |m.transitions| || !Holds(m.transitions[i].guard, config) {
        return false;
      }
      assert ValidTransition(m, m.transitions[i]);
      var effect := m.transitions[i].effect;
      if effect.Goto? {
        config := Copied(m, config, effect.dst);
        return true;
      }
      var f := effect.field;
      var next := new Instance.Clone(this);
      if f in config.child && f in m.children {
        var before := config.child[f];
        var after := ChildDispatch(m.children[f], before, param);
        if after == None {
          return false;
        }
        next.config := next.config.(child := next.config.child[f := after.value]);
        if m.changed.Some? && after.value != before {
          var _ := next.Handle(m.changed.value, 0);
        }
      }
      config := next.config;
      return true;
    }
  }
}

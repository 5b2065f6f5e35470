/** The order in which the C header defines a module's types: each after the types it contains, where
    that is possible. */
module TypeOrder {
  import opened Kahn

  /** A packet, frame or capsule with the types its fields refer to. */
  datatype TypeDef = TypeDef(name: Node, refs: set<Node>)

  function NamesOf(ts: seq<TypeDef>): (ns: seq<Node>)
    ensures |ns| == |ts| && forall i :: 0 <= i < |ts| ==> ns[i] == ts[i].name
  {
    seq(|ts|, i requires 0 <= i < |ts| => ts[i].name)
  }

  /** No two types of a module have the same name. */
  predicate Valid(ts: seq<TypeDef>) {
    Distinct(NamesOf(ts))
  }

  /** Each type with the types of the module it refers to. */
  ghost predicate DepsOf(ts: seq<TypeDef>, g: Graph) {
    && g.Keys == Elements(NamesOf(ts))
    && forall i :: 0 <= i < |ts| ==> g[ts[i].name] == ts[i].refs * Elements(NamesOf(ts))
  }

  /** The types of `among` that refer to n. */
  function DependentsIn(g: map<Node, set<Node>>, n: Node, among: set<Node>): set<Node> {
    set t | t in among && t in g && n in g[t]
  }

  /** The declared names that are not in `taken`, in order. */
  function Remaining(names: seq<Node>, taken: seq<Node>): (rest: seq<Node>)
    ensures forall n :: n in rest <==> n in names && n !in taken
    ensures Distinct(names) ==> Distinct(rest)
  {
    if names == [] then []
    else
      var init, last := names[..|names| - 1], names[|names| - 1];
      if last in taken then Remaining(init, taken) else Remaining(init, taken) + [last]
  }

  /** The first k types with all their references. */
  ghost predicate RefsOf(ts: seq<TypeDef>, k: nat, deps: map<Node, set<Node>>)
    requires k <= |ts|
  {
    deps.Keys == Elements(NamesOf(ts)[..k]) && forall i :: 0 <= i < k ==> ts[i].name in deps && deps[ts[i].name] == ts[i].refs
  }

  lemma {:induction false} RefsStep(ts: seq<TypeDef>, k: nat, deps: map<Node, set<Node>>)
    requires Valid(ts) && k < |ts| && RefsOf(ts, k, deps)
    ensures RefsOf(ts, k + 1, deps[ts[k].name := ts[k].refs])
  {
    ElementsNext(NamesOf(ts), k);
  }

  method CollectDeps(ts: seq<TypeDef>) returns (g: Graph)
    requires Valid(ts)
    ensures DepsOf(ts, g)
  {
    var all: set<Node> := {};
    var deps: map<Node, set<Node>> := map[];
    for i := 0 to |ts|
      invariant all == deps.Keys && RefsOf(ts, i, deps)
    {
      RefsStep(ts, i, deps);
      all := all + {ts[i].name};
      deps := deps[ts[i].name := ts[i].refs];
    }
    assert NamesOf(ts)[..|ts|] == NamesOf(ts);
    g := map n | n in deps :: deps[n] * all;
  }

  /** `dependents` lists, for each type, those of `done` that need it. */
  ghost predicate ListedFor(g: map<Node, set<Node>>, dependents: map<Node, seq<Node>>, done: set<Node>) {
    && dependents.Keys == g.Keys
    && forall n {:trigger dependents[n]} :: n in g ==> Lists(dependents[n], DependentsIn(g, n, done))
  }

  predicate Lists(ns: seq<Node>, s: set<Node>) {
    Distinct(ns) && Elements(ns) == s
  }

  /** The number of types each type needs, and the types that need it. */
  method CollectDependents(g: Graph) returns (inDeg: map<Node, nat>, dependents: map<Node, seq<Node>>)
    ensures Counts(g, inDeg, {}) && Reverses(g, dependents)
  {
    inDeg := map n | n in g :: |g[n]|;
    CountsAll(g, inDeg);
    dependents := AllDependents(g);
    Reversed(g, dependents);
  }

  method AllDependents(g: map<Node, set<Node>>) returns (dependents: map<Node, seq<Node>>)
    requires forall n :: n in g ==> g[n] <= g.Keys
    ensures ListedFor(g, dependents, g.Keys)
  {
    dependents := map n | n in g :: [];
    NothingListed(g, dependents);
    var rest := g.Keys;
    ghost var done := {};
    while rest != {}
      invariant done !! rest && done + rest == g.Keys && ListedFor(g, dependents, done)
      decreases |rest|
    {
      var name :| name in rest;
      rest := rest - {name};
      dependents := Register(g, name, done, dependents);
      done := done + {name};
    }
  }

  lemma {:induction false} NothingListed(g: map<Node, set<Node>>, dependents: map<Node, seq<Node>>)
    requires dependents.Keys == g.Keys && forall n :: n in g ==> dependents[n] == []
    ensures ListedFor(g, dependents, {})
  {
  }

  /** The lists while `name` is being noted: those of `noted` have it. */
  ghost predicate Noting(g: map<Node, set<Node>>, dependents: map<Node, seq<Node>>, done: set<Node>, name: Node, noted: set<Node>) {
    && dependents.Keys == g.Keys
    && forall n {:trigger dependents[n]} :: n in g ==>
         Lists(dependents[n], DependentsIn(g, n, done) + if n in noted then {name} else {})
  }

  lemma {:induction false} Pushed(ns: seq<Node>, s: set<Node>, x: Node)
    requires Lists(ns, s) && x !in s
    ensures Lists(ns + [x], s + {x})
  {
  }

  lemma {:induction false} NoteOne(g: map<Node, set<Node>>, dependents: map<Node, seq<Node>>, done: set<Node>, name: Node, noted: set<Node>, dep: Node)
    requires Noting(g, dependents, done, name, noted) && dep in g && dep !in noted && name !in done
    ensures Noting(g, dependents[dep := dependents[dep] + [name]], done, name, noted + {dep})
  {
    var before := DependentsIn(g, dep, done);
    assert before + {} == before;
    Pushed(dependents[dep], before, name);
  }

  lemma {:induction false} NotedNone(g: map<Node, set<Node>>, dependents: map<Node, seq<Node>>, done: set<Node>, name: Node)
    requires ListedFor(g, dependents, done)
    ensures Noting(g, dependents, done, name, {})
  {
    forall n | n in g ensures Lists(dependents[n], DependentsIn(g, n, done) + {}) {
      assert DependentsIn(g, n, done) + {} == DependentsIn(g, n, done);
    }
  }

  lemma {:induction false} NotedAll(g: map<Node, set<Node>>, dependents: map<Node, seq<Node>>, done: set<Node>, name: Node)
    requires name in g && Noting(g, dependents, done, name, g[name])
    ensures ListedFor(g, dependents, done + {name})
  {
    forall n | n in g ensures Lists(dependents[n], DependentsIn(g, n, done + {name})) {
      assert DependentsIn(g, n, done + {name}) == DependentsIn(g, n, done) + if n in g[name] then {name} else {};
    }
  }

  /** Notes one type with each type it needs. */
  method Register(g: map<Node, set<Node>>, name: Node, ghost done: set<Node>, start: map<Node, seq<Node>>) returns (dependents: map<Node, seq<Node>>)
    requires name in g && g[name] <= g.Keys && name !in done && ListedFor(g, start, done)
    ensures ListedFor(g, dependents, done + {name})
  {
    dependents := start;
    var deps := Listed(g[name]);
    NotedNone(g, dependents, done, name);
    for i := 0 to |deps|
      invariant Noting(g, dependents, done, name, Elements(deps[..i]))
    {
      var dep := deps[i];
      assert dep in Elements(deps);
      ElementsNext(deps, i);
      NoteOne(g, dependents, done, name, Elements(deps[..i]), dep);
      dependents := dependents[dep := dependents[dep] + [name]];
    }
    assert deps[..|deps|] == deps;
    NotedAll(g, dependents, done, name);
  }

  lemma {:induction false} CountsAll(g: Graph, inDeg: map<Node, nat>)
    requires inDeg == map n | n in g :: |g[n]|
    ensures Counts(g, inDeg, {})
  {
    forall n | n in g ensures inDeg[n] == |g[n] - {}| {
      assert g[n] - {} == g[n];
    }
  }

  lemma {:induction false} Reversed(g: Graph, dependents: map<Node, seq<Node>>)
    requires ListedFor(g, dependents, g.Keys)
    ensures Reverses(g, dependents)
  {
    forall n | n in g ensures Distinct(dependents[n]) && Elements(dependents[n]) == DependentsIn(g, n, g.Keys) {
      assert Lists(dependents[n], DependentsIn(g, n, g.Keys));
    }
    forall n, t | n in g && t in g ensures t in dependents[n] <==> n in g[t] {
      assert t in Elements(dependents[n]) <==> t in DependentsIn(g, n, g.Keys);
    }
  }

  /** `out` is the k types that can be ordered, and then the others as declared. */
  ghost predicate OrderedThenRest(ts: seq<TypeDef>, g: Graph, out: seq<Node>, k: nat)
    requires k <= |out|
  {
    && PredsFirst(g, out[..k]) && (forall n :: n in g ==> (n in out[..k] <==> !DependsOnCycle(g, n)))
    && out[k..] == Remaining(NamesOf(ts), out[..k])
  }

  /** The emitted order. Every type is emitted exactly once; a type that neither is on a cycle nor depends
      on one comes after all the types it contains; the others follow as declared, so that without cycles
      every type comes after all it contains. */
  method EmitOrder(ts: seq<TypeDef>, ghost g: Graph) returns (out: seq<Node>)
    requires Valid(ts) && DepsOf(ts, g)
    ensures Distinct(out) && Elements(out) == Elements(NamesOf(ts)) && |out| == |ts|
    ensures forall i :: 0 <= i < |out| && !DependsOnCycle(g, out[i]) ==> out[i] in g && g[out[i]] <= Elements(out[..i])
    ensures exists k :: 0 <= k <= |out| && OrderedThenRest(ts, g, out, k)
    ensures (forall n :: n in g ==> !DependsOnCycle(g, n)) ==> PredsFirst(g, out)
  {
    var deps := CollectDeps(ts);
    DepsUnique(ts, deps, g);
    var inDeg, dependents := CollectDependents(deps);
    var taken := Order(deps, dependents, inDeg);
    out := AppendRest(ts, taken);
    OrderIsUsable(ts, g, taken, out);
    assert out[..|taken|] == taken && out[|taken|..] == Remaining(NamesOf(ts), taken);
    assert OrderedThenRest(ts, g, out, |taken|);
  }

  lemma {:induction false} DepsUnique(ts: seq<TypeDef>, g: Graph, h: Graph)
    requires DepsOf(ts, g) && DepsOf(ts, h)
    ensures g == h
  {
    forall n | n in g ensures g[n] == h[n] {
      assert n in Elements(NamesOf(ts));
      var i :| 0 <= i < |ts| && NamesOf(ts)[i] == n;
      assert ts[i].name == n;
    }
  }

  method AppendRest(ts: seq<TypeDef>, taken: seq<Node>) returns (out: seq<Node>)
    ensures out == taken + Remaining(NamesOf(ts), taken)
  {
    out := taken;
    ghost var names := NamesOf(ts);
    for i := 0 to |ts|
      invariant out == taken + Remaining(names[..i], taken)
    {
      assert names[..i + 1] == names[..i] + [ts[i].name];
      if ts[i].name !in taken {
        out := out + [ts[i].name];
      }
    }
    assert names[..|ts|] == names;
  }

  /** What makes such an order usable; without cycles nothing is left to append. */
  lemma {:induction false} OrderIsUsable(ts: seq<TypeDef>, g: Graph, ordered: seq<Node>, out: seq<Node>)
    requires Valid(ts) && DepsOf(ts, g) && PredsFirst(g, ordered)
    requires forall n :: n in g ==> (n in ordered <==> !DependsOnCycle(g, n))
    requires out == ordered + Remaining(NamesOf(ts), ordered)
    ensures Distinct(out) && Elements(out) == Elements(NamesOf(ts)) && |out| == |ts|
    ensures forall i :: 0 <= i < |out| && !DependsOnCycle(g, out[i]) ==> out[i] in g && g[out[i]] <= Elements(out[..i])
    ensures (forall n :: n in g ==> !DependsOnCycle(g, n)) ==> out == ordered
  {
    var names := NamesOf(ts);
    var rest := Remaining(names, ordered);
    SameNames(names, g, ordered, rest);
    forall i | 0 <= i < |out| && !DependsOnCycle(g, out[i]) ensures out[i] in g && g[out[i]] <= Elements(out[..i]) {
      OrderedPart(g, ordered, rest, i);
    }
    if forall n :: n in g ==> !DependsOnCycle(g, n) {
      HasElement(rest);
      assert ordered + [] == ordered;
    }
  }

  lemma {:induction false} SameNames(names: seq<Node>, g: Graph, ordered: seq<Node>, rest: seq<Node>)
    requires Distinct(names) && g.Keys == Elements(names) && PredsFirst(g, ordered) && rest == Remaining(names, ordered)
    ensures Distinct(ordered + rest) && Elements(ordered + rest) == Elements(names) && |ordered + rest| == |names|
    ensures forall n :: n in rest ==> n in g && n !in ordered
  {
    forall n | n in ordered ensures n in names {
      var k :| 0 <= k < |ordered| && ordered[k] == n;
      assert n in Elements(names);
    }
    forall n | n in rest ensures n in g {
      assert n in Elements(names);
    }
    forall n ensures n in ordered + rest <==> n in names {
    }
    Permutation(ordered + rest, names);
  }

  lemma {:induction false} HasElement(ns: seq<Node>)
    ensures ns == [] || exists n :: n in ns
  {
    assert ns == [] || ns[0] in ns;
  }

  lemma {:induction false} InEither(a: seq<Node>, b: seq<Node>, i: nat)
    requires i < |a + b|
    ensures i < |a| || (a + b)[i] in b
  {
  }

  lemma {:induction false} OrderedPart(g: Graph, ordered: seq<Node>, rest: seq<Node>, i: nat)
    requires PredsFirst(g, ordered) && i < |ordered + rest| && !DependsOnCycle(g, (ordered + rest)[i])
    requires forall n :: n in rest ==> n in g && DependsOnCycle(g, n)
    ensures var out := ordered + rest; out[i] in g && g[out[i]] <= Elements(out[..i])
  {
    var out := ordered + rest;
    InEither(ordered, rest, i);
    if i < |ordered| {
      assert out[..i] == ordered[..i];
    }
  }

  lemma {:induction false} Permutation(a: seq<Node>, b: seq<Node>)
    requires Distinct(a) && Distinct(b) && forall n :: n in a <==> n in b
    ensures Elements(a) == Elements(b) && |a| == |b|
  {
    Pigeonhole(a, Elements(b));
    Pigeonhole(b, Elements(a));
    SizeOf(a);
    SizeOf(b);
  }
}

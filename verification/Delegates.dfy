/** The check that state machines do not delegate to each other in a circle. */
module Delegates {
  import opened Kahn

  /** A declared machine and the machines its child fields name. */
  datatype Machine = Machine(name: Node, children: seq<Node>)

  predicate Delegates(ms: seq<Machine>, a: Node, b: Node) {
    exists i :: 0 <= i < |ms| && ms[i].name == a && b in ms[i].children
  }

  function Names(ms: seq<Machine>): set<Node> {
    set i | 0 <= i < |ms| :: ms[i].name
  }

  /** Machines each delegating to the next, and back to the first. */
  predicate Circle(ms: seq<Machine>, ws: seq<Node>) {
    && |ws| >= 2 && ws[0] == ws[|ws| - 1]
    && forall i :: 0 <= i < |ws| - 1 ==> Delegates(ms, ws[i], ws[i + 1])
  }

  /** Each declared machine with the declared machines that delegate to it. */
  function Parents(ms: seq<Machine>): Graph {
    map t | t in Names(ms) :: set n | n in Names(ms) && Delegates(ms, n, t)
  }

  // ----- circles are cycles of the graph, read backwards

  function Reversed(ws: seq<Node>): (r: seq<Node>)
    ensures |r| == |ws| && forall i :: 0 <= i < |ws| ==> r[i] == ws[|ws| - 1 - i]
  {
    seq(|ws|, i requires 0 <= i < |ws| => ws[|ws| - 1 - i])
  }

  lemma {:induction false} CircleIsCycle(ms: seq<Machine>, ws: seq<Node>)
    requires Circle(ms, ws)
    ensures ws[0] in Parents(ms) && OnCycle(Parents(ms), ws[0])
  {
    var g, r := Parents(ms), Reversed(ws);
    forall i | 0 <= i < |ws| ensures ws[i] in g {
      var k := if i < |ws| - 1 then i else 0;
      assert Delegates(ms, ws[k], ws[k + 1]);
    }
    forall i | 0 <= i < |r| - 1 ensures r[i + 1] in g[r[i]] {
      assert Delegates(ms, ws[|ws| - 2 - i], ws[|ws| - 2 - i + 1]);
    }
    assert Walk(g, r);
  }

  lemma {:induction false} CycleIsCircle(ms: seq<Machine>, n: Node) returns (ws: seq<Node>)
    requires OnCycle(Parents(ms), n)
    ensures Circle(ms, ws)
  {
    var g := Parents(ms);
    var r :| Walk(g, r) && |r| >= 2 && r[0] == n && r[|r| - 1] == n;
    ws := Reversed(r);
    forall i | 0 <= i < |ws| - 1 ensures Delegates(ms, ws[i], ws[i + 1]) {
      assert r[|r| - 2 - i + 1] in g[r[|r| - 2 - i]];
    }
  }

  // ----- the check

  function Targets(edges: map<Node, set<Node>>, n: Node): set<Node> {
    if n in edges then edges[n] else {}
  }

  /** The child references of each machine that has any. */
  ghost predicate EdgesOf(ms: seq<Machine>, edges: map<Node, set<Node>>) {
    && edges.Keys <= Names(ms)
    && forall n, t :: t in Targets(edges, n) <==> Delegates(ms, n, t)
  }

  method CollectEdges(ms: seq<Machine>) returns (all: set<Node>, edges: map<Node, set<Node>>)
    ensures all == Names(ms) && EdgesOf(ms, edges)
  {
    all, edges := {}, map[];
    for i := 0 to |ms|
      invariant all == Names(ms[..i]) && EdgesOf(ms[..i], edges)
    {
      var name, children := ms[i].name, ms[i].children;
      all := all + {name};
      WithoutChildren(ms[..i], name, edges);
      for j := 0 to |children|
        invariant EdgesOf(ms[..i] + [Machine(name, children[..j])], edges)
      {
        OneChildMore(ms[..i], name, children, j, edges);
        edges := edges[name := Targets(edges, name) + {children[j]}];
      }
      assert children[..|children|] == children;
      assert ms[..i + 1] == ms[..i] + [ms[i]];
    }
    assert ms[..|ms|] == ms;
  }

  lemma {:induction false} DelegatesSnoc(ms: seq<Machine>, m: Machine, a: Node, b: Node)
    ensures Delegates(ms + [m], a, b) <==> Delegates(ms, a, b) || (m.name == a && b in m.children)
  {
    var longer := ms + [m];
    if Delegates(ms, a, b) {
      var i :| 0 <= i < |ms| && ms[i].name == a && b in ms[i].children;
      assert longer[i] == ms[i];
    }
    assert longer[|ms|] == m;
  }

  lemma {:induction false} NamesSnoc(ms: seq<Machine>, m: Machine)
    ensures Names(ms + [m]) == Names(ms) + {m.name}
  {
    var longer := ms + [m];
    assert longer[|ms|] == m;
    forall i | 0 <= i < |ms| ensures ms[i].name in Names(longer) {
      assert longer[i] == ms[i];
    }
  }

  lemma {:induction false} WithoutChildren(ms: seq<Machine>, name: Node, edges: map<Node, set<Node>>)
    requires EdgesOf(ms, edges)
    ensures EdgesOf(ms + [Machine(name, [])], edges)
  {
    NamesSnoc(ms, Machine(name, []));
    forall n, t ensures t in Targets(edges, n) <==> Delegates(ms + [Machine(name, [])], n, t) {
      DelegatesSnoc(ms, Machine(name, []), n, t);
    }
  }

  lemma {:induction false} OneChildMore(ms: seq<Machine>, name: Node, children: seq<Node>, j: nat, edges: map<Node, set<Node>>)
    requires j < |children| && EdgesOf(ms + [Machine(name, children[..j])], edges)
    ensures EdgesOf(ms + [Machine(name, children[..j + 1])], edges[name := Targets(edges, name) + {children[j]}])
  {
    var more := edges[name := Targets(edges, name) + {children[j]}];
    NamesSnoc(ms, Machine(name, children[..j]));
    NamesSnoc(ms, Machine(name, children[..j + 1]));
    forall n, t ensures t in Targets(more, n) <==> Delegates(ms + [Machine(name, children[..j + 1])], n, t) {
      DelegatesSnoc(ms, Machine(name, children[..j]), n, t);
      DelegatesSnoc(ms, Machine(name, children[..j + 1]), n, t);
      assert children[..j + 1] == children[..j] + [children[j]];
    }
  }

  /** The machines among `done` that delegate to t. */
  function From(edges: map<Node, set<Node>>, done: set<Node>, t: Node): set<Node> {
    set n | n in done && t in Targets(edges, n)
  }

  method InDegrees(all: set<Node>, edges: map<Node, set<Node>>) returns (inDeg: map<Node, nat>)
    ensures inDeg.Keys == all && forall t {:trigger inDeg[t]} :: t in all ==> inDeg[t] == |From(edges, edges.Keys, t)|
  {
    inDeg := map n | n in all :: 0;
    var done, rest := {}, edges.Keys;
    while rest != {}
      invariant rest <= edges.Keys && done == edges.Keys - rest && inDeg.Keys == all
      invariant forall t {:trigger inDeg[t]} :: t in all ==> inDeg[t] == |From(edges, done, t)|
      decreases |rest|
    {
      var n :| n in rest;
      rest := rest - {n};
      inDeg := CountTargets(all, edges, done, n, inDeg);
      done := done + {n};
    }
    assert done == edges.Keys;
  }

  method CountTargets(all: set<Node>, edges: map<Node, set<Node>>, ghost done: set<Node>, n: Node, start: map<Node, nat>) returns (inDeg: map<Node, nat>)
    requires n in edges && n !in done && start.Keys == all
    requires forall t {:trigger start[t]} :: t in all ==> start[t] == |From(edges, done, t)|
    ensures inDeg.Keys == all && forall t {:trigger inDeg[t]} :: t in all ==> inDeg[t] == |From(edges, done + {n}, t)|
  {
    inDeg := start;
    var left := edges[n];
    while left != {}
      invariant left <= edges[n] && inDeg.Keys == all
      invariant forall t {:trigger inDeg[t]} :: t in all ==>
                  inDeg[t] == |From(edges, done, t)| + if t in edges[n] && t !in left then 1 else 0
      decreases |left|
    {
      var t :| t in left;
      left := left - {t};
      if t in inDeg {
        inDeg := inDeg[t := inDeg[t] + 1];
      }
    }
    forall t | t in all ensures |From(edges, done + {n}, t)| == |From(edges, done, t)| + if t in edges[n] then 1 else 0 {
      OneMore(edges, done, n, t);
    }
  }

  lemma {:induction false} OneMore(edges: map<Node, set<Node>>, done: set<Node>, n: Node, t: Node)
    requires n in edges && n !in done
    ensures |From(edges, done + {n}, t)| == |From(edges, done, t)| + if t in edges[n] then 1 else 0
  {
    assert From(edges, done + {n}, t) == From(edges, done, t) + if t in edges[n] then {n} else {};
  }

  method Successors(all: set<Node>, edges: map<Node, set<Node>>) returns (succs: map<Node, seq<Node>>)
    ensures succs.Keys == all
    ensures forall n :: n in all ==> Distinct(succs[n]) && Elements(succs[n]) == Targets(edges, n)
  {
    succs := map[];
    var rest := all;
    while rest != {}
      invariant rest <= all && succs.Keys == all - rest
      invariant forall n :: n in succs ==> Distinct(succs[n]) && Elements(succs[n]) == Targets(edges, n)
      decreases |rest|
    {
      var n :| n in rest;
      rest := rest - {n};
      var ns := Listed(Targets(edges, n));
      succs := succs[n := ns];
    }
  }

  lemma {:induction false} CountsMatch(ms: seq<Machine>, edges: map<Node, set<Node>>, inDeg: map<Node, nat>)
    requires EdgesOf(ms, edges) && inDeg.Keys == Names(ms)
    requires forall t {:trigger inDeg[t]} :: t in Names(ms) ==> inDeg[t] == |From(edges, edges.Keys, t)|
    ensures Counts(Parents(ms), inDeg, {})
  {
    var g := Parents(ms);
    forall t | t in g ensures inDeg[t] == |g[t] - {}| {
      FromIsParents(ms, edges, t);
      assert g[t] - {} == g[t];
    }
  }

  lemma {:induction false} FromIsParents(ms: seq<Machine>, edges: map<Node, set<Node>>, t: Node)
    requires EdgesOf(ms, edges) && t in Names(ms)
    ensures From(edges, edges.Keys, t) == Parents(ms)[t]
  {
    forall n ensures n in From(edges, edges.Keys, t) <==> n in Parents(ms)[t] {
      assert t in Targets(edges, n) <==> Delegates(ms, n, t);
    }
  }

  lemma {:induction false} SuccessorsMatch(ms: seq<Machine>, edges: map<Node, set<Node>>, succs: map<Node, seq<Node>>)
    requires EdgesOf(ms, edges) && succs.Keys == Names(ms)
    requires forall n :: n in Names(ms) ==> Distinct(succs[n]) && Elements(succs[n]) == Targets(edges, n)
    ensures Reverses(Parents(ms), succs)
  {
    var g := Parents(ms);
    forall n, t | n in g && t in g ensures t in succs[n] <==> n in g[t] {
      assert t in Elements(succs[n]) <==> t in succs[n];
      assert t in Targets(edges, n) <==> Delegates(ms, n, t);
    }
  }

  lemma {:induction false} AllTaken(order: seq<Node>, all: set<Node>)
    requires Distinct(order) && Elements(order) <= all
    ensures |order| <= |all|
    ensures |order| == |all| <==> Elements(order) == all
  {
    SizeOf(order);
    if |order| == |all| && Elements(order) != all {
      var x :| x in all && x !in Elements(order);
      SubsetSize(Elements(order), all - {x});
    }
    SubsetSize(Elements(order), all);
  }

  lemma {:induction false} SubsetSize(a: set<Node>, b: set<Node>)
    requires a <= b
    ensures |a| <= |b|
  {
    assert b == a + (b - a);
  }

  /** The check: a set of machines is rejected exactly when some of them delegate in a circle. */
  method CheckDelegates(ms: seq<Machine>) returns (rejected: bool)
    ensures rejected <==> exists ws :: Circle(ms, ws)
  {
    var all, edges := CollectEdges(ms);
    var inDeg := InDegrees(all, edges);
    var succs := Successors(all, edges);
    ghost var g := Parents(ms);
    CountsMatch(ms, edges, inDeg);
    SuccessorsMatch(ms, edges, succs);
    var order := Order(g, succs, inDeg);
    rejected := |order| < |all|;
    OrderedNames(ms, order);
    AllTaken(order, all);
    RejectedIff(ms, order);
  }

  lemma {:induction false} OrderedNames(ms: seq<Machine>, order: seq<Node>)
    requires PredsFirst(Parents(ms), order)
    ensures Elements(order) <= Names(ms)
  {
    forall n | n in order ensures n in Names(ms) {
      var k :| 0 <= k < |order| && order[k] == n;
    }
  }

  lemma {:induction false} RejectedIff(ms: seq<Machine>, order: seq<Node>)
    requires forall n :: n in Parents(ms) ==> (n in order <==> !DependsOnCycle(Parents(ms), n))
    requires Elements(order) <= Names(ms)
    ensures Elements(order) != Names(ms) <==> exists ws :: Circle(ms, ws)
  {
    var g := Parents(ms);
    if ws :| Circle(ms, ws) {
      CircleIsCycle(ms, ws);
      assert Walk(g, [ws[0]]);
      assert DependsOnCycle(g, ws[0]);
    }
    if Elements(order) != Names(ms) {
      var n :| n in Names(ms) && n !in Elements(order);
      assert DependsOnCycle(g, n);
      var ws :| Walk(g, ws) && ws[0] == n && OnCycle(g, ws[|ws| - 1]);
      var circle := CycleIsCircle(ms, ws[|ws| - 1]);
    }
  }
}

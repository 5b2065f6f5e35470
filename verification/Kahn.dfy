/** Kahn's algorithm as the delegate check and the C type order use it: repeatedly take a node none of
    whose predecessors is left. */
module Kahn {
  /** Declared names, by number. */
  type Node = nat

  /** Every node with the nodes that must come before it. */
  type Graph = g: map<Node, set<Node>> | forall n :: n in g ==> g[n] <= g.Keys

  /** Each node followed by one of its predecessors. */
  predicate Walk(g: Graph, ws: seq<Node>) {
    && ws != [] && (forall i :: 0 <= i < |ws| ==> ws[i] in g)
    && forall i :: 0 <= i < |ws| - 1 ==> ws[i + 1] in g[ws[i]]
  }

  ghost predicate OnCycle(g: Graph, n: Node) {
    exists ws :: Walk(g, ws) && |ws| >= 2 && ws[0] == n && ws[|ws| - 1] == n
  }

  ghost predicate DependsOnCycle(g: Graph, n: Node) {
    exists ws :: Walk(g, ws) && ws[0] == n && OnCycle(g, ws[|ws| - 1])
  }

  predicate Distinct(ns: seq<Node>) {
    forall i, j :: 0 <= i < j < |ns| ==> ns[i] != ns[j]
  }

  function Elements(ns: seq<Node>): set<Node> {
    set n | n in ns
  }

  /** Every listed node comes after all its predecessors. */
  predicate PredsFirst(g: Graph, order: seq<Node>) {
    && Distinct(order)
    && forall k :: 0 <= k < |order| ==> order[k] in g && g[order[k]] <= Elements(order[..k])
  }

  // ----- which nodes can be ordered

  lemma {:induction false} SubWalk(g: Graph, ws: seq<Node>, i: nat, j: nat)
    requires Walk(g, ws) && i < j <= |ws|
    ensures Walk(g, ws[i..j])
  {
    var part := ws[i..j];
    forall k | 0 <= k < |part| - 1 ensures part[k + 1] in g[part[k]] {
      assert part[k] == ws[i + k] && part[k + 1] == ws[i + k + 1];
    }
  }

  lemma {:induction false} WalkDescends(g: Graph, order: seq<Node>, ws: seq<Node>, i: nat)
    requires PredsFirst(g, order) && Walk(g, ws) && i < |order| && ws[0] == order[i]
    ensures exists j :: 0 <= j <= i && ws[|ws| - 1] == order[j] && (|ws| >= 2 ==> j < i)
    decreases |ws|
  {
    if |ws| >= 2 {
      assert ws[1] in g[order[i]];
      assert ws[1] in Elements(order[..i]);
      var j :| 0 <= j < i && order[j] == ws[1];
      SubWalk(g, ws, 1, |ws|);
      WalkDescends(g, order, ws[1..], j);
    }
  }

  lemma {:induction false} OrderedIsAcyclic(g: Graph, order: seq<Node>, n: Node)
    requires PredsFirst(g, order) && n in order
    ensures !DependsOnCycle(g, n)
  {
    if DependsOnCycle(g, n) {
      var ws :| Walk(g, ws) && ws[0] == n && OnCycle(g, ws[|ws| - 1]);
      var cs :| Walk(g, cs) && |cs| >= 2 && cs[0] == ws[|ws| - 1] && cs[|cs| - 1] == ws[|ws| - 1];
      var i :| 0 <= i < |order| && order[i] == n;
      WalkDescends(g, order, ws, i);
      var j :| 0 <= j <= i && ws[|ws| - 1] == order[j];
      WalkDescends(g, order, cs, j);
      assert false;
    }
  }

  lemma {:induction false} Pigeonhole(ns: seq<Node>, s: set<Node>)
    requires Distinct(ns) && forall i :: 0 <= i < |ns| ==> ns[i] in s
    ensures |ns| <= |s|
    decreases |ns|
  {
    if ns != [] {
      var last := ns[|ns| - 1];
      Pigeonhole(ns[..|ns| - 1], s - {last});
    }
  }

  lemma {:induction false} SizeOf(order: seq<Node>)
    requires Distinct(order)
    ensures |Elements(order)| == |order|
    decreases |order|
  {
    if order != [] {
      var init, last := order[..|order| - 1], order[|order| - 1];
      SizeOf(init);
      assert order == init + [last];
      assert Elements(order) == Elements(init) + {last};
    }
  }

  /** Where every node has a predecessor, walks can go on for ever. */
  lemma {:induction false} LongWalk(g: Graph, rest: set<Node>, n: Node, length: nat) returns (ws: seq<Node>)
    requires rest <= g.Keys && n in rest
    requires forall m :: m in rest ==> g[m] * rest != {}
    ensures Walk(g, ws) && |ws| == length + 1 && ws[0] == n && forall i :: 0 <= i < |ws| ==> ws[i] in rest
    decreases length
  {
    if length == 0 {
      ws := [n];
    } else {
      var p :| p in g[n] * rest;
      var tail := LongWalk(g, rest, p, length - 1);
      ws := [n] + tail;
    }
  }

  lemma {:induction false} StuckDependsOnCycle(g: Graph, rest: set<Node>, n: Node)
    requires rest <= g.Keys && n in rest
    requires forall m :: m in rest ==> g[m] * rest != {}
    ensures DependsOnCycle(g, n)
  {
    var ws := LongWalk(g, rest, n, |rest|);
    if Distinct(ws) {
      Pigeonhole(ws, rest);
      assert false;
    }
    var i, j :| 0 <= i < j < |ws| && ws[i] == ws[j];
    RepeatIsCycle(g, ws, i, j);
  }

  lemma {:induction false} RepeatIsCycle(g: Graph, ws: seq<Node>, i: nat, j: nat)
    requires Walk(g, ws) && i < j < |ws| && ws[i] == ws[j]
    ensures DependsOnCycle(g, ws[0])
  {
    SubWalk(g, ws, i, j + 1);
    var cs := ws[i..j + 1];
    assert cs[0] == ws[i] && cs[|cs| - 1] == ws[j];
    assert OnCycle(g, ws[i]);
    SubWalk(g, ws, 0, i + 1);
    var to := ws[0..i + 1];
    assert to[0] == ws[0] && to[|to| - 1] == ws[i];
  }

  // ----- the worklist loop

  /** The successors of each node, listed once each, possibly with names that are not nodes. */
  ghost predicate Reverses(g: Graph, succs: map<Node, seq<Node>>) {
    && succs.Keys == g.Keys
    && (forall n :: n in g ==> Distinct(succs[n]))
    && forall n, t :: n in g && t in g ==> (t in succs[n] <==> n in g[t])
  }

  /** The worklist's state: `taken` in order, `queue` waiting, degrees counting predecessors not taken. */
  predicate Counts(g: map<Node, set<Node>>, inDeg: map<Node, nat>, taken: set<Node>) {
    inDeg.Keys == g.Keys && forall n {:trigger inDeg[n]} :: n in g ==> inDeg[n] == |g[n] - taken|
  }

  ghost predicate Waiting(g: map<Node, set<Node>>, inDeg: map<Node, nat>, seen: seq<Node>) {
    && inDeg.Keys == g.Keys && Distinct(seen)
    && forall n :: n in seen <==> n in g && inDeg[n] == 0
  }

  /** The nodes without predecessors, in any order. */
  method Sources(ghost g: Graph, inDeg: map<Node, nat>) returns (queue: seq<Node>)
    requires inDeg.Keys == g.Keys
    ensures Waiting(g, inDeg, queue)
  {
    queue := [];
    var rest := inDeg.Keys;
    while rest != {}
      invariant rest <= g.Keys && Distinct(queue)
      invariant forall n :: n in queue <==> n in g && n !in rest && inDeg[n] == 0
      decreases |rest|
    {
      var n :| n in rest;
      rest := rest - {n};
      if inDeg[n] == 0 {
        queue := queue + [n];
      }
    }
  }

  lemma {:induction false} PredsFirstSnoc(g: Graph, order: seq<Node>, node: Node)
    requires PredsFirst(g, order) && node in g && node !in order && g[node] <= Elements(order)
    ensures PredsFirst(g, order + [node]) && Elements(order + [node]) == Elements(order) + {node}
  {
    var longer := order + [node];
    forall k | 0 <= k < |longer| ensures longer[k] in g && g[longer[k]] <= Elements(longer[..k]) {
      assert longer[..k] == if k < |order| then order[..k] else order;
    }
  }

  lemma {:induction false} NextWaits(g: Graph, inDeg: map<Node, nat>, order: seq<Node>, queue: seq<Node>)
    requires queue != [] && Waiting(g, inDeg, order + queue)
    ensures queue[0] in g && inDeg[queue[0]] == 0 && queue[0] !in order
    ensures order + [queue[0]] + queue[1..] == order + queue
  {
    var seen := order + queue;
    assert seen[|order|] == queue[0] && queue[0] in seen;
    forall i | 0 <= i < |order| ensures order[i] != queue[0] {
      assert seen[i] == order[i];
    }
  }

  lemma {:induction false} NextIsReady(g: Graph, inDeg: map<Node, nat>, taken: set<Node>, node: Node)
    requires node in g && Counts(g, inDeg, taken) && inDeg[node] == 0
    ensures g[node] <= taken
  {
    NothingLeft(g[node], taken);
  }

  lemma {:induction false} NothingLeft(s: set<Node>, t: set<Node>)
    requires |s - t| == 0
    ensures s <= t
  {
    forall x | x in s ensures x in t {
      assert x in t || x in s - t;
    }
  }

  /** The elements of a hash set in the order it gives them. */
  method Listed(s: set<Node>) returns (ns: seq<Node>)
    ensures Distinct(ns) && Elements(ns) == s
  {
    ns := [];
    var rest := s;
    while rest != {}
      invariant rest <= s && Distinct(ns) && forall n :: n in ns <==> n in s && n !in rest
      decreases |rest|
    {
      var n :| n in rest;
      rest := rest - {n};
      ns := ns + [n];
    }
  }

  /** Predecessors not taken, before or after `node` has been counted. */
  function Left(s: set<Node>, taken: set<Node>, node: Node, counted: bool): nat {
    if counted then |s - (taken + {node})| else |s - taken|
  }

  /** Degrees while the successors of `node` are being counted down; those in `done` have been. */
  predicate Releasing(g: map<Node, set<Node>>, inDeg: map<Node, nat>, taken: set<Node>, node: Node, done: set<Node>) {
    && inDeg.Keys == g.Keys
    && forall n {:trigger inDeg[n]} :: n in g ==> inDeg[n] == Left(g[n], taken, node, n in done)
  }

  lemma {:induction false} CountDown(s: set<Node>, taken: set<Node>, node: Node)
    ensures node in s && node !in taken ==> |s - taken| > 0 && |s - (taken + {node})| == |s - taken| - 1
    ensures node !in s ==> s - (taken + {node}) == s - taken
  {
    if node in s && node !in taken {
      assert node in s - taken;
      assert s - (taken + {node}) == (s - taken) - {node};
    }
  }

  lemma {:induction false} Push(g: map<Node, set<Node>>, before: map<Node, nat>, order: seq<Node>, queue: seq<Node>, t: Node)
    requires t in g && Waiting(g, before, order + queue) && before[t] > 0
    ensures var after := before[t := before[t] - 1];
            Waiting(g, after, order + if after[t] == 0 then queue + [t] else queue)
  {
    assert t !in order + queue;
    assert order + queue + [t] == order + (queue + [t]);
  }

  lemma {:induction false} ElementsNext(ns: seq<Node>, i: nat)
    requires Distinct(ns) && i < |ns|
    ensures ns[i] !in Elements(ns[..i]) && Elements(ns[..i + 1]) == Elements(ns[..i]) + {ns[i]}
  {
    assert ns[..i + 1] == ns[..i] + [ns[i]];
  }

  /** Counts down the successors of a taken node and queues those that become free. */
  method Release(ghost g: map<Node, set<Node>>, targets: seq<Node>, node: Node, ghost taken: set<Node>, start: map<Node, nat>, ghost order: seq<Node>, waiting: seq<Node>)
    returns (inDeg: map<Node, nat>, queue: seq<Node>)
    requires Distinct(targets) && node !in taken
    requires forall t :: t in g ==> (t in Elements(targets) <==> node in g[t])
    requires Counts(g, start, taken) && Waiting(g, start, order + waiting)
    ensures Counts(g, inDeg, taken + {node}) && Waiting(g, inDeg, order + queue)
  {
    inDeg, queue := start, waiting;
    for i := 0 to |targets|
      invariant Releasing(g, inDeg, taken, node, Elements(targets[..i])) && Waiting(g, inDeg, order + queue)
    {
      var t := targets[i];
      assert t in Elements(targets);
      ElementsNext(targets, i);
      if t in inDeg {
        ReleasingStep(g, inDeg, taken, node, Elements(targets[..i]), t);
        Push(g, inDeg, order, queue, t);
        inDeg := inDeg[t := inDeg[t] - 1];
        if inDeg[t] == 0 {
          queue := queue + [t];
        }
      }
    }
    assert targets[..|targets|] == targets;
    AllReleased(g, inDeg, taken, node, Elements(targets));
  }

  lemma {:induction false} ReleasingStep(g: map<Node, set<Node>>, inDeg: map<Node, nat>, taken: set<Node>, node: Node, done: set<Node>, t: Node)
    requires t in g && t !in done && node in g[t] && node !in taken && Releasing(g, inDeg, taken, node, done)
    ensures inDeg[t] > 0
    ensures Releasing(g, inDeg[t := inDeg[t] - 1], taken, node, done + {t})
  {
    assert inDeg[t] == Left(g[t], taken, node, false);
    CountDown(g[t], taken, node);
  }

  lemma {:induction false} AllReleased(g: map<Node, set<Node>>, inDeg: map<Node, nat>, taken: set<Node>, node: Node, done: set<Node>)
    requires forall t :: t in g ==> (t in done <==> node in g[t])
    requires Releasing(g, inDeg, taken, node, done)
    ensures Counts(g, inDeg, taken + {node})
  {
    forall n | n in g ensures inDeg[n] == |g[n] - (taken + {node})| {
      CountDown(g[n], taken, node);
    }
  }

  lemma {:induction false} RestIsStuck(g: Graph, inDeg: map<Node, nat>, order: seq<Node>)
    requires Counts(g, inDeg, Elements(order)) && Waiting(g, inDeg, order) && PredsFirst(g, order)
    ensures forall n :: n in g ==> (n in order <==> !DependsOnCycle(g, n))
  {
    var rest := g.Keys - Elements(order);
    forall n | n in g ensures n in order <==> !DependsOnCycle(g, n) {
      if n in order {
        OrderedIsAcyclic(g, order, n);
      } else {
        forall m | m in rest ensures g[m] * rest != {} {
          assert inDeg[m] > 0;
          var p :| p in g[m] - Elements(order);
          assert p in g[m] * rest;
        }
        StuckDependsOnCycle(g, rest, n);
      }
    }
  }

  /** What the worklist loop keeps. */
  ghost predicate Running(g: Graph, inDeg: map<Node, nat>, order: seq<Node>, queue: seq<Node>) {
    Counts(g, inDeg, Elements(order)) && PredsFirst(g, order) && Waiting(g, inDeg, order + queue)
  }

  /** One turn of the loop. */
  method Take(ghost g: Graph, succs: map<Node, seq<Node>>, start: map<Node, nat>, ghost order: seq<Node>, waiting: seq<Node>)
    returns (inDeg: map<Node, nat>, node: Node, queue: seq<Node>)
    requires Reverses(g, succs) && waiting != [] && Running(g, start, order, waiting)
    ensures node in g && node !in order && Running(g, inDeg, order + [node], queue)
  {
    node := waiting[0];
    ghost var taken := Elements(order);
    NextWaits(g, start, order, waiting);
    NextIsReady(g, start, taken, node);
    PredsFirstSnoc(g, order, node);
    SuccessorsOf(g, succs, node);
    inDeg, queue := Release(g, succs[node], node, taken, start, order + [node], waiting[1..]);
  }

  lemma {:induction false} SuccessorsOf(g: Graph, succs: map<Node, seq<Node>>, node: Node)
    requires Reverses(g, succs) && node in g
    ensures Distinct(succs[node]) && forall t :: t in g ==> (t in Elements(succs[node]) <==> node in g[t])
  {
  }

  lemma {:induction false} FewerLeft(g: Graph, order: seq<Node>, node: Node)
    requires node in g && node !in order
    ensures |g.Keys - Elements(order + [node])| < |g.Keys - Elements(order)|
  {
    assert g.Keys - Elements(order + [node]) == (g.Keys - Elements(order)) - {node};
    assert node in g.Keys - Elements(order);
  }

  /** The worklist loop: every node is taken at most once, after all its predecessors, and exactly the
      nodes that neither are on a cycle nor depend on one are taken. */
  method Order(ghost g: Graph, succs: map<Node, seq<Node>>, start: map<Node, nat>) returns (order: seq<Node>)
    requires Reverses(g, succs) && Counts(g, start, {})
    ensures PredsFirst(g, order)
    ensures forall n :: n in g ==> (n in order <==> !DependsOnCycle(g, n))
  {
    var inDeg := start;
    var queue := Sources(g, inDeg);
    order := [];
    assert order + queue == queue && Elements(order) == {};
    while queue != []
      invariant Running(g, inDeg, order, queue)
      decreases |g.Keys - Elements(order)|
    {
      var node;
      inDeg, node, queue := Take(g, succs, inDeg, order, queue);
      FewerLeft(g, order, node);
      order := order + [node];
    }
    assert order + queue == order;
    RestIsStuck(g, inDeg, order);
  }
}

/** The module resolver: depth-first over imports, with cycle detection and a dependency-first order. */
module Resolver {
  import opened Outcome

  type Path = string

  datatype Item = Item(name: string, exported: bool)

  datatype Import = Import(moduleName: string, name: Option<string>)

  datatype Module = Module(imports: seq<Import>, items: seq<Item>)

  /** The files that can be read and parsed, by canonical path, and what the search for a module name
      finds. */
  datatype World = World(files: map<Path, Module>, located: map<string, Path>)

  datatype Failure = NotFound | Unreadable | NotExported | Circular

  datatype Resolution<+T> = Resolved(value: T) | Failed(failure: Failure) {
    predicate IsFailure() { Failed? }

    function PropagateFailure<U>(): Resolution<U>
      requires Failed?
    {
      Failed(failure)
    }

    function Extract(): T
      requires Resolved?
    {
      value
    }
  }

  // ----- exports

  /** The exported names; all names if nothing is exported. */
  function Exportable(items: seq<Item>): set<string> {
    if exists i :: 0 <= i < |items| && items[i].exported
    then set i | 0 <= i < |items| && items[i].exported :: items[i].name
    else set i | 0 <= i < |items| :: items[i].name
  }

  /** A name can be imported if its item is exported, or if none is. */
  lemma {:induction false} ExportableIs(items: seq<Item>, name: string)
    ensures name in Exportable(items) <==>
            exists i :: 0 <= i < |items| && items[i].name == name
              && (items[i].exported || forall j :: 0 <= j < |items| ==> !items[j].exported)
  {
  }

  method GetExportableNames(items: seq<Item>) returns (names: set<string>)
    ensures names == Exportable(items)
  {
    var hasExports := false;
    var all, exported := {}, {};
    for k := 0 to |items|
      invariant hasExports <==> exists i :: 0 <= i < k && items[i].exported
      invariant all == set i | 0 <= i < k :: items[i].name
      invariant exported == set i | 0 <= i < k && items[i].exported :: items[i].name
    {
      all := all + {items[k].name};
      if items[k].exported {
        hasExports := true;
        exported := exported + {items[k].name};
      }
    }
    names := if hasExports then exported else all;
  }

  // ----- the import graph

  function Target(w: World, imp: Import): Option<Path> {
    if imp.moduleName in w.located then Some(w.located[imp.moduleName]) else None
  }

  predicate Visible(w: World, imp: Import, dep: Path) {
    dep in w.files && (imp.name.Some? ==> imp.name.value in Exportable(w.files[dep].items))
  }

  predicate Edge(w: World, a: Path, b: Path) {
    a in w.files && exists i :: 0 <= i < |w.files[a].imports| && Target(w, w.files[a].imports[i]) == Some(b)
  }

  /** Consecutive imports. */
  predicate Walk(w: World, ws: seq<Path>) {
    ws != [] && forall i :: 0 <= i < |ws| - 1 ==> Edge(w, ws[i], ws[i + 1])
  }

  ghost predicate Reaches(w: World, a: Path, b: Path) {
    exists ws :: Walk(w, ws) && ws[0] == a && ws[|ws| - 1] == b
  }

  ghost predicate OnCycle(w: World, a: Path) {
    exists ws :: Walk(w, ws) && |ws| >= 2 && ws[0] == a && ws[|ws| - 1] == a
  }

  lemma {:induction false} ReachesSelf(w: World, a: Path)
    ensures Reaches(w, a, a)
  {
    assert Walk(w, [a]);
  }

  lemma {:induction false} ReachesStep(w: World, a: Path, b: Path, c: Path)
    requires Reaches(w, a, b) && Edge(w, b, c)
    ensures Reaches(w, a, c)
  {
    var ws :| Walk(w, ws) && ws[0] == a && ws[|ws| - 1] == b;
    WalkStep(w, ws, c);
  }

  lemma {:induction false} WalkStep(w: World, ws: seq<Path>, c: Path)
    requires Walk(w, ws) && Edge(w, ws[|ws| - 1], c)
    ensures Walk(w, ws + [c])
  {
    var longer := ws + [c];
    forall i | 0 <= i < |longer| - 1 ensures Edge(w, longer[i], longer[i + 1]) {
      if i < |ws| - 1 {
        assert longer[i] == ws[i] && longer[i + 1] == ws[i + 1];
      }
    }
  }

  /** A reachable cause for each kind of failure. */
  ghost predicate Cause(w: World, entry: Path, f: Failure) {
    match f
    case Unreadable => exists a :: Reaches(w, entry, a) && a !in w.files
    case NotFound => exists a, i :: Reaches(w, entry, a) && MissingImport(w, a, i)
    case NotExported => exists a, i :: Reaches(w, entry, a) && HiddenImport(w, a, i)
    case Circular => exists a :: Reaches(w, entry, a) && OnCycle(w, a)
  }

  predicate MissingImport(w: World, a: Path, i: nat) {
    a in w.files && i < |w.files[a].imports| && Target(w, w.files[a].imports[i]) == None
  }

  predicate HiddenImport(w: World, a: Path, i: nat) {
    && a in w.files && i < |w.files[a].imports|
    && Target(w, w.files[a].imports[i]).Some?
    && Target(w, w.files[a].imports[i]).value in w.files
    && !Visible(w, w.files[a].imports[i], Target(w, w.files[a].imports[i]).value)
  }

  // ----- a finished order

  predicate ImportSettled(w: World, before: seq<Path>, imp: Import) {
    var t := Target(w, imp);
    t.Some? && t.value in before && Visible(w, imp, t.value)
  }

  /** Every import of module k is found, comes before it, and may be imported. */
  predicate Settled(w: World, order: seq<Path>, k: nat)
    requires k < |order|
  {
    && order[k] in w.files
    && forall i :: 0 <= i < |w.files[order[k]].imports| ==> ImportSettled(w, order[..k], w.files[order[k]].imports[i])
  }

  /** The module of a file offers the import's name, if it asks for one: an exported item of that name, or any item
      where none is exported. */
  ghost predicate Offers(m: Module, imp: Import) {
    imp.name.Some? ==>
      exists i :: 0 <= i < |m.items| && m.items[i].name == imp.name.value
        && (m.items[i].exported || forall j :: 0 <= j < |m.items| ==> !m.items[j].exported)
  }

  /** An import is in order if the search finds a file, which was read before and offers the name. */
  lemma {:induction false} ImportSettledIs(w: World, before: seq<Path>, imp: Import)
    ensures ImportSettled(w, before, imp) <==>
            && imp.moduleName in w.located && w.located[imp.moduleName] in before
            && w.located[imp.moduleName] in w.files && Offers(w.files[w.located[imp.moduleName]], imp)
  {
    if imp.moduleName in w.located && w.located[imp.moduleName] in w.files && imp.name.Some? {
      ExportableIs(w.files[w.located[imp.moduleName]].items, imp.name.value);
    }
  }

  /** An import fails if the search finds nothing, or a readable file that does not offer the name. */
  lemma {:induction false} ImportFailsIs(w: World, a: Path, i: nat)
    requires a in w.files && i < |w.files[a].imports|
    ensures MissingImport(w, a, i) <==> w.files[a].imports[i].moduleName !in w.located
    ensures var imp := w.files[a].imports[i];
            HiddenImport(w, a, i) <==>
            && imp.moduleName in w.located && w.located[imp.moduleName] in w.files
            && !Offers(w.files[w.located[imp.moduleName]], imp)
  {
    var imp := w.files[a].imports[i];
    if imp.moduleName in w.located && w.located[imp.moduleName] in w.files && imp.name.Some? {
      ExportableIs(w.files[w.located[imp.moduleName]].items, imp.name.value);
    }
  }

  predicate Distinct(ps: seq<Path>) {
    forall i, j :: 0 <= i < j < |ps| ==> ps[i] != ps[j]
  }

  predicate Sorted(w: World, order: seq<Path>) {
    Distinct(order) && forall k :: 0 <= k < |order| ==> Settled(w, order, k)
  }

  lemma {:induction false} SortedSnoc(w: World, order: seq<Path>, p: Path)
    requires Sorted(w, order) && p !in order && p in w.files
    requires forall i :: 0 <= i < |w.files[p].imports| ==> ImportSettled(w, order, w.files[p].imports[i])
    ensures Sorted(w, order + [p])
  {
    var longer := order + [p];
    forall k | 0 <= k < |longer| ensures Settled(w, longer, k) {
      if k < |order| {
        assert longer[..k] == order[..k] && Settled(w, order, k);
      } else {
        assert longer[..k] == order;
      }
    }
  }

  /** Along a walk in a sorted order the positions only go down. */
  lemma {:induction false} WalkDescends(w: World, order: seq<Path>, ws: seq<Path>, i: nat)
    requires Sorted(w, order) && Walk(w, ws) && i < |order| && ws[0] == order[i]
    ensures exists j :: 0 <= j <= i && ws[|ws| - 1] == order[j] && (|ws| >= 2 ==> j < i)
    decreases |ws|
  {
    if |ws| >= 2 {
      assert Settled(w, order, i) && Edge(w, ws[0], ws[1]);
      var k :| 0 <= k < |w.files[ws[0]].imports| && Target(w, w.files[ws[0]].imports[k]) == Some(ws[1]);
      assert ImportSettled(w, order[..i], w.files[ws[0]].imports[k]);
      var j :| 0 <= j < i && order[j] == ws[1];
      assert Walk(w, ws[1..]);
      WalkDescends(w, order, ws[1..], j);
    }
  }

  /** Nothing reachable from a sorted order is missing from it or goes wrong. */
  lemma {:induction false} SortedHasNoCause(w: World, order: seq<Path>, entry: Path, f: Failure)
    requires Sorted(w, order) && entry in order
    ensures !Cause(w, entry, f)
    ensures forall a :: Reaches(w, entry, a) ==> a in order
  {
    var e :| 0 <= e < |order| && order[e] == entry;
    forall a | Reaches(w, entry, a) ensures a in order && a in w.files && !OnCycle(w, a) {
      var ws :| Walk(w, ws) && ws[0] == entry && ws[|ws| - 1] == a;
      WalkDescends(w, order, ws, e);
      var j :| 0 <= j <= e && a == order[j];
      assert Settled(w, order, j);
      if OnCycle(w, a) {
        var cs :| Walk(w, cs) && |cs| >= 2 && cs[0] == a && cs[|cs| - 1] == a;
        WalkDescends(w, order, cs, j);
        assert false;
      }
    }
    forall a, i: nat | Reaches(w, entry, a) && a in order
      ensures !MissingImport(w, a, i) && !HiddenImport(w, a, i)
    {
      var j :| 0 <= j < |order| && a == order[j];
      assert Settled(w, order, j);
      if i < |w.files[a].imports| {
        assert ImportSettled(w, order[..j], w.files[a].imports[i]);
      }
    }
  }

  // ----- the resolver

  class Resolver {
    const w: World
    ghost const entry: Path
    var resolved: set<Path>
    var inProgress: set<Path>
    var order: seq<Path>
    ghost var stack: seq<Path>

    ghost predicate Valid()
      reads this
    {
      && Sorted(w, order) && resolved == (set p | p in order)
      && inProgress == (set p | p in stack) && resolved !! inProgress
      && (stack != [] ==> Walk(w, stack) && stack[0] == entry && Reaches(w, entry, stack[|stack| - 1]))
      && inProgress <= w.files.Keys
      && forall p :: p in order ==> Reaches(w, entry, p)
    }

    constructor (w: World, ghost entry: Path)
      ensures Valid() && this.w == w && this.entry == entry && order == [] && stack == []
    {
      this.w := w;
      this.entry := entry;
      resolved, inProgress, order, stack := {}, {}, [], [];
    }

    method Visit(path: Path) returns (r: Resolution<()>)
      requires Valid()
      requires if stack == [] then path == entry else Edge(w, stack[|stack| - 1], path)
      modifies this
      ensures r.Failed? ==> Cause(w, entry, r.failure)
      ensures r.Resolved? ==>
                && Valid() && inProgress == old(inProgress) && stack == old(stack)
                && path in resolved && old(order) <= order
                && (path !in old(resolved) ==> order[|order| - 1] == path)
      decreases |w.files.Keys - inProgress|, 0
    {
      PathReachable(path);
      if path in resolved {
        return Resolved(());
      }
      if path in inProgress {
        CycleFound(path);
        return Failed(Circular);
      }
      var file :- Begin(path);
      for i := 0 to |file.imports|
        invariant Valid() && stack == old(stack) + [path] && inProgress == old(inProgress) + {path}
        invariant old(order) <= order
        invariant forall j :: 0 <= j < i ==> ImportSettled(w, order, file.imports[j])
      {
        ghost var before := order;
        var _ :- VisitImport(path, i);
        KeepsSettled(before, order, file.imports, i);
      }
      Finish(path, old(stack));
      r := Resolved(());
    }

    /** The file is being visited from here on, and is read. */
    method Begin(path: Path) returns (r: Resolution<Module>)
      requires Valid() && path !in resolved && path !in inProgress && Reaches(w, entry, path)
      requires if stack == [] then path == entry else Edge(w, stack[|stack| - 1], path)
      modifies this`inProgress, this`stack
      ensures r == if path in w.files then Resolved(w.files[path]) else Failed(Unreadable)
      ensures r.Resolved? ==> Valid() && stack == old(stack) + [path] && inProgress == old(inProgress) + {path}
    {
      inProgress := inProgress + {path};
      if path !in w.files {
        return Failed(Unreadable);
      }
      Push(path);
      stack := stack + [path];
      r := Resolved(w.files[path]);
    }

    /** All its imports are done: the file goes to the end of the order. */
    method Finish(path: Path, ghost below: seq<Path>)
      requires Valid() && stack == below + [path] && path !in below
      requires forall i :: 0 <= i < |w.files[path].imports| ==> ImportSettled(w, order, w.files[path].imports[i])
      modifies this
      ensures Valid() && stack == below && inProgress == old(inProgress) - {path}
      ensures resolved == old(resolved) + {path} && order == old(order) + [path]
    {
      inProgress := inProgress - {path};
      resolved := resolved + {path};
      SortedSnoc(w, order, path);
      order := order + [path];
      stack := below;
      Shorter(below, path);
    }

    lemma {:induction false} Shorter(below: seq<Path>, path: Path)
      requires Walk(w, below + [path]) && (below + [path])[0] == entry
      ensures below != [] ==> Walk(w, below) && below[0] == entry && Reaches(w, entry, below[|below| - 1])
    {
      if below != [] {
        var longer := below + [path];
        forall i | 0 <= i < |below| - 1 ensures Edge(w, below[i], below[i + 1]) {
          assert longer[i] == below[i] && longer[i + 1] == below[i + 1];
        }
      }
    }

    /** One import of the file being visited: found, visited, and allowed by the exports. */
    method VisitImport(path: Path, i: nat) returns (r: Resolution<()>)
      requires Valid() && stack != [] && stack[|stack| - 1] == path
      requires path in w.files && i < |w.files[path].imports|
      modifies this
      ensures r.Failed? ==> Cause(w, entry, r.failure)
      ensures r.Resolved? ==>
                && Valid() && inProgress == old(inProgress) && stack == old(stack) && old(order) <= order
                && ImportSettled(w, order, w.files[path].imports[i])
      decreases |w.files.Keys - inProgress|, 1
    {
      var imp := w.files[path].imports[i];
      var target := Target(w, imp);
      if target == None {
        assert MissingImport(w, path, i);
        return Failed(NotFound);
      }
      var dep := target.value;
      assert Edge(w, path, dep);
      r := Visit(dep);
      if r.Failed? {
        return;
      }
      assert dep in order;
      ghost var k :| 0 <= k < |order| && order[k] == dep;
      assert Settled(w, order, k);
      if imp.name.Some? && dep in resolved {
        var names := GetExportableNames(w.files[dep].items);
        if imp.name.value !in names {
          assert HiddenImport(w, path, i);
          return Failed(NotExported);
        }
      }
    }

    lemma {:induction false} PathReachable(path: Path)
      requires Valid() && if stack == [] then path == entry else Edge(w, stack[|stack| - 1], path)
      ensures Reaches(w, entry, path)
    {
      if stack == [] {
        ReachesSelf(w, entry);
      } else {
        ReachesStep(w, entry, stack[|stack| - 1], path);
      }
    }

    lemma {:induction false} CycleFound(path: Path)
      requires Valid() && path in stack && Edge(w, stack[|stack| - 1], path)
      ensures OnCycle(w, path)
    {
      var j :| 0 <= j < |stack| && stack[j] == path;
      var ws := stack[j..];
      forall i | 0 <= i < |ws| - 1 ensures Edge(w, ws[i], ws[i + 1]) {
        assert ws[i] == stack[j + i] && ws[i + 1] == stack[j + i + 1];
      }
      WalkStep(w, ws, path);
    }

    lemma {:induction false} Push(path: Path)
      requires Walk(w, stack) || stack == []
      requires stack != [] ==> Edge(w, stack[|stack| - 1], path)
      ensures Walk(w, stack + [path])
    {
      if stack != [] {
        WalkStep(w, stack, path);
      }
    }

    lemma {:induction false} KeepsSettled(before: seq<Path>, after: seq<Path>, imports: seq<Import>, n: nat)
      requires before <= after && n <= |imports|
      requires forall j :: 0 <= j < n ==> ImportSettled(w, before, imports[j])
      ensures forall j :: 0 <= j < n ==> ImportSettled(w, after, imports[j])
    {
    }
  }

  /** The modules in dependency-first order, or the first failure. */
  method Resolve(w: World, entry: Path) returns (r: Resolution<seq<Path>>)
    ensures Justified(w, entry, r)
    ensures r.Resolved? ==>
              && r.value != [] && r.value[|r.value| - 1] == entry
              && forall p :: p in r.value <==> Reaches(w, entry, p)
  {
    var resolver := new Resolver(w, entry);
    var visited := resolver.Visit(entry);
    if visited.Failed? {
      return Failed(visited.failure);
    }
    var modules, ps := resolver.resolved, [];
    for i := 0 to |resolver.order|
      invariant ps == resolver.order[..i]
      invariant modules == set p | p in resolver.order[i..]
    {
      var p := resolver.order[i];
      assert resolver.order[i..] == [p] + resolver.order[i + 1..];
      assert p in modules;
      modules := modules - {p};
      ps := ps + [p];
    }
    assert ps == resolver.order;
    SortedHasNoCause(w, ps, entry, Circular);
    r := Resolved(ps);
  }

  /** Success and failure exclude each other, so the outcome is decided by the imports alone. */
  ghost predicate Justified(w: World, entry: Path, r: Resolution<seq<Path>>) {
    match r
    case Failed(f) => Cause(w, entry, f)
    case Resolved(order) => Sorted(w, order) && entry in order
  }

  lemma {:induction false} OutcomeDecided(w: World, entry: Path, r: Resolution<seq<Path>>)
    requires Justified(w, entry, r)
    ensures r.Resolved? <==> forall f :: !Cause(w, entry, f)
    ensures (forall f :: f != Circular ==> !Cause(w, entry, f)) ==>
              (r == Failed(Circular) <==> exists a :: Reaches(w, entry, a) && OnCycle(w, a))
  {
    if r.Resolved? {
      forall f ensures !Cause(w, entry, f) {
        SortedHasNoCause(w, r.value, entry, f);
      }
      assert !Cause(w, entry, Circular);
    } else {
      assert Cause(w, entry, r.failure);
    }
  }
}

/** Building the dependency graph from the root (`buildDepGraph` in
    src/Nix/DependencyGraph.hs). */
module GraphConstruction {
  import opened Basics
  import opened Sorting
  import opened Derivations
  import opened Digraph
  import opened DependencyGraph

  /** The `.drv` files: what reading each path gives. `universe` holds the
      root and every path a readable derivation in it names. */
  datatype Drvs = Drvs(read: StorePath -> Result<Derivation, Text>, root: StorePath, rootDrv: Derivation,
                       universe: set<StorePath>)
  {
    /** The root derivation is given, every other one is read. */
    function Drv(p: StorePath): Result<Derivation, Text> {
      if p == root then Ok(rootDrv) else read(p)
    }

    ghost predicate Finite() {
      && root in universe
      && forall p :: p in universe && Drv(p).Ok? ==> Drv(p).value.inputDrvs.Keys <= universe
    }

    /** The references between derivations; an unreadable one has none. */
    ghost function References(): Graph {
      map p | p in universe :: if Drv(p).Ok? then Drv(p).value.inputDrvs.Keys else {}
    }
  }

  datatype Item = Item(path: StorePath, drv: Derivation)

  /** Read each dependency not in the graph yet, stopping at the first that
      cannot be read. */
  function ResolveNewDeps(read: StorePath -> Result<Derivation, Text>, visited: set<StorePath>,
                          deps: seq<StorePath>): Result<seq<Item>, Text> {
    if deps == [] then Ok([])
    else if deps[0] in visited then ResolveNewDeps(read, visited, deps[1..])
    else
      match read(deps[0])
      case Err(e) => Err(e)
      case Ok(drv) =>
        match ResolveNewDeps(read, visited, deps[1..])
        case Err(e) => Err(e)
        case Ok(items) => Ok([Item(deps[0], drv)] + items)
  }

  function NodeOf(item: Item): DepNode {
    DepNode(item.path, item.drv, AscendingPaths(item.drv.inputDrvs.Keys))
  }

  /** Each queued item carries its own derivation, and is one the root reaches. */
  ghost predicate Queued(s: Drvs, queue: seq<Item>) {
    forall i :: 0 <= i < |queue| ==> IsItem(s, queue[i])
  }

  ghost predicate IsItem(s: Drvs, item: Item) {
    s.Drv(item.path) == Ok(item.drv) && item.path in s.universe && Reaches(s.References(), s.root, item.path)
  }

  lemma {:induction false} ResolvedItems(s: Drvs, visited: set<StorePath>, from: StorePath, deps: seq<StorePath>)
    requires s.Finite() && s.root in visited
    requires from in s.universe && Reaches(s.References(), s.root, from) && s.Drv(from).Ok?
    requires Elements(deps) <= s.Drv(from).value.inputDrvs.Keys
    ensures var r := ResolveNewDeps(s.read, visited, deps);
            && (r.Ok? ==> Queued(s, r.value) && forall d :: d in deps && d !in visited ==> InQueue(r.value, d))
            && (r.Err? ==> Unreadable(s))
  {
    if deps != [] {
      var d := deps[0];
      assert d in Elements(deps) && Edge(s.References(), from, d);
      ReachesStep(s.References(), s.root, from, d);
      ResolvedItems(s, visited, from, deps[1..]);
      var r := ResolveNewDeps(s.read, visited, deps);
      if d in visited {
      } else if s.read(d).Err? {
        assert IsUnreadable(s, d);
      } else if r.Ok? {
        var rest := ResolveNewDeps(s.read, visited, deps[1..]).value;
        assert IsItem(s, r.value[0]) && r.value[0].path == d;
        forall x | x in deps && x !in visited
          ensures InQueue(r.value, x)
        {
          if x != d {
            assert x in deps[1..];
            var i :| 0 <= i < |rest| && rest[i].path == x;
            assert r.value[i + 1].path == x;
          }
        }
      }
    }
  }

  ghost predicate InQueue(queue: seq<Item>, d: StorePath) {
    exists i :: 0 <= i < |queue| && queue[i].path == d
  }

  ghost predicate IsUnreadable(s: Drvs, p: StorePath) {
    s.Drv(p).Err? && Reaches(s.References(), s.root, p)
  }

  /** A derivation the root reaches cannot be read. */
  ghost predicate Unreadable(s: Drvs) {
    exists p :: IsUnreadable(s, p)
  }

  /** A graph holding derivations the root reaches, as they read, with their
      inputs as dependencies. */
  ghost predicate PartOf(s: Drvs, g: DepGraph) {
    forall p :: p in g ==>
      Reaches(s.References(), s.root, p) && p in s.universe && s.Drv(p).Ok? && g[p] == NodeOf(Item(p, s.Drv(p).value))
  }

  /** Every dependency of the graph is in it or queued. */
  ghost predicate Pursued(s: Drvs, g: DepGraph, queue: seq<Item>) {
    && (s.root in g || InQueue(queue, s.root))
    && forall p, d :: p in g && d in g[p].drv.inputDrvs ==> d in g || InQueue(queue, d)
  }

  function Go(ghost s: Drvs, read: StorePath -> Result<Derivation, Text>, visited: DepGraph,
              queue: seq<Item>): (r: Result<DepGraph, Text>)
    requires s.Finite() && read == s.read && Queued(s, queue)
    requires s.root in visited || (|queue| > 0 && queue[0].path == s.root)
    decreases |s.universe - visited.Keys|, |queue|
  {
    if queue == [] then Ok(visited)
    else if queue[0].path in visited then
      Go(s, read, visited, queue[1..])
    else
      GoStep(s, visited, queue);
      var node := NodeOf(queue[0]);
      var extended := visited[queue[0].path := node];
      match ResolveNewDeps(read, extended.Keys, node.deps)
      case Err(e) => Err(e)
      case Ok(items) => Go(s, read, extended, queue[1..] + items)
  }

  lemma GoStep(s: Drvs, visited: DepGraph, queue: seq<Item>)
    requires s.Finite() && Queued(s, queue) && |queue| > 0 && queue[0].path !in visited
    requires s.root in visited || queue[0].path == s.root
    ensures var extended := visited[queue[0].path := NodeOf(queue[0])];
            var resolved := ResolveNewDeps(s.read, extended.Keys, NodeOf(queue[0]).deps);
            && |s.universe - extended.Keys| < |s.universe - visited.Keys|
            && (resolved.Ok? ==> Queued(s, queue[1..] + resolved.value))
  {
    assert IsItem(s, queue[0]);
    var extended := visited[queue[0].path := NodeOf(queue[0])];
    ResolvedItems(s, extended.Keys, queue[0].path, NodeOf(queue[0]).deps);
    assert s.universe - extended.Keys == (s.universe - visited.Keys) - {queue[0].path};
  }

  lemma {:induction false} GoSound(s: Drvs, visited: DepGraph, queue: seq<Item>)
    requires s.Finite() && Queued(s, queue)
    requires s.root in visited || (|queue| > 0 && queue[0].path == s.root)
    requires PartOf(s, visited) && Pursued(s, visited, queue)
    ensures var r := Go(s, s.read, visited, queue);
            && (r.Ok? ==> PartOf(s, r.value) && Pursued(s, r.value, []))
            && (r.Err? ==> Unreadable(s))
    decreases |s.universe - visited.Keys|, |queue|
  {
    if queue != [] {
      if queue[0].path in visited {
        DropVisited(s, visited, queue);
        GoSound(s, visited, queue[1..]);
      } else {
        assert IsItem(s, queue[0]);
        var node := NodeOf(queue[0]);
        var extended := visited[queue[0].path := node];
        ResolvedItems(s, extended.Keys, queue[0].path, node.deps);
        var resolved := ResolveNewDeps(s.read, extended.Keys, node.deps);
        if resolved.Ok? {
          GoStep(s, visited, queue);
          AddNode(s, visited, queue, resolved.value);
          GoSound(s, extended, queue[1..] + resolved.value);
        }
      }
    }
  }

  lemma InQueueRest(queue: seq<Item>, d: StorePath)
    requires InQueue(queue, d) && queue[0].path != d
    ensures InQueue(queue[1..], d)
  {
    var i :| 0 <= i < |queue| && queue[i].path == d;
    assert queue[1..][i - 1].path == d;
  }

  lemma InQueueExtended(queue: seq<Item>, items: seq<Item>, d: StorePath)
    requires InQueue(queue, d) || InQueue(items, d)
    ensures InQueue(queue + items, d)
  {
    if InQueue(queue, d) {
      var i :| 0 <= i < |queue| && queue[i].path == d;
      assert (queue + items)[i].path == d;
    } else {
      var i :| 0 <= i < |items| && items[i].path == d;
      assert (queue + items)[|queue| + i].path == d;
    }
  }

  lemma DropVisited(s: Drvs, g: DepGraph, queue: seq<Item>)
    requires Queued(s, queue) && Pursued(s, g, queue) && |queue| > 0 && queue[0].path in g
    ensures Queued(s, queue[1..]) && Pursued(s, g, queue[1..])
  {
    forall d | d !in g && InQueue(queue, d)
      ensures InQueue(queue[1..], d)
    {
      InQueueRest(queue, d);
    }
  }

  lemma AddNode(s: Drvs, g: DepGraph, queue: seq<Item>, items: seq<Item>)
    requires PartOf(s, g) && Queued(s, queue) && Pursued(s, g, queue) && |queue| > 0 && queue[0].path !in g
    requires Queued(s, items)
    requires forall d :: d in queue[0].drv.inputDrvs && d !in g && d != queue[0].path ==> InQueue(items, d)
    ensures var extended := g[queue[0].path := NodeOf(queue[0])];
            PartOf(s, extended) && Queued(s, queue[1..] + items) && Pursued(s, extended, queue[1..] + items)
  {
    var extended := g[queue[0].path := NodeOf(queue[0])];
    assert IsItem(s, queue[0]);
    forall d | d !in extended && (InQueue(queue, d) || InQueue(items, d))
      ensures InQueue(queue[1..] + items, d)
    {
      if InQueue(queue, d) {
        InQueueRest(queue, d);
      }
      InQueueExtended(queue[1..], items, d);
    }
  }

  function BuildDepGraph(s: Drvs): (r: Result<DepGraph, Text>)
    requires s.Finite()
  {
    StartsWithRoot(s);
    Go(s, s.read, map[], [Item(s.root, s.rootDrv)])
  }

  lemma StartsWithRoot(s: Drvs)
    requires s.Finite()
    ensures Queued(s, [Item(s.root, s.rootDrv)]) && Pursued(s, map[], [Item(s.root, s.rootDrv)])
  {
    ReachesSelf(s.References(), s.root);
    assert [Item(s.root, s.rootDrv)][0].path == s.root;
  }

  /** The graph holds exactly the derivations the root reaches, cycles included,
      each as it reads; it fails exactly when one of them cannot be read. */
  lemma BuildDepGraphIsReachable(s: Drvs)
    requires s.Finite()
    ensures var r := BuildDepGraph(s);
            && (r.Err? <==> Unreadable(s))
            && (r.Ok? ==> forall p :: p in r.value <==> Reaches(s.References(), s.root, p))
            && (r.Ok? ==> forall p :: p in r.value ==>
                  s.Drv(p) == Ok(r.value[p].drv) && Elements(r.value[p].deps) == r.value[p].drv.inputDrvs.Keys)
  {
    StartsWithRoot(s);
    GoSound(s, map[], [Item(s.root, s.rootDrv)]);
    var r := BuildDepGraph(s);
    if r.Ok? {
      PursuedHoldsReachable(s, r.value);
      NoneUnreadable(s, r.value);
    }
  }

  lemma PursuedHoldsReachable(s: Drvs, g: DepGraph)
    requires s.root in g && PartOf(s, g) && Pursued(s, g, [])
    ensures forall p :: Reaches(s.References(), s.root, p) ==> p in g
  {
    assert forall d :: !InQueue([], d);
    forall x, y | x in g.Keys && Edge(s.References(), x, y)
      ensures y in g.Keys
    {
      assert y in g[x].drv.inputDrvs;
    }
    ClosedHoldsReachable(s.References(), g.Keys, s.root);
  }

  lemma NoneUnreadable(s: Drvs, g: DepGraph)
    requires forall p :: Reaches(s.References(), s.root, p) ==> p in g
    requires forall p :: p in g ==> s.Drv(p).Ok?
    ensures !Unreadable(s)
  {
  }
}

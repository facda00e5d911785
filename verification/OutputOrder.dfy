/** The order a build's outputs are registered in (`orderByReferences` in
    src/Nix/Builder.hs).  A node's value only matters through the references
    taken from it, so the map holds those. */
module OutputOrder {
  import opened Basics
  import opened Sorting
  import opened Digraph

  /** The reference that closes a cycle. */
  datatype ReferenceCycle = ReferenceCycle(node: Node, referrer: Node)

  /** The nodes entered, and those finished, the last finished first. */
  datatype Walked = Walked(entered: set<Node>, finished: seq<Node>)

  type Outcome = Result<Walked, ReferenceCycle>

  /** The references followed: a node's reference to itself is not one. */
  function Proper(nodes: Graph): Graph {
    map k | k in nodes :: nodes[k] - {k}
  }

  function Referenced(nodes: Graph, key: Node): seq<Node>
    requires key in nodes
  {
    AscendingPaths(nodes[key] * nodes.Keys - {key})
  }

  function Visit(nodes: Graph, onPath: set<Node>, walk: Walked, key: Node): (r: Outcome)
    requires key in nodes
    ensures r.Ok? ==> walk.entered <= r.value.entered
    decreases |nodes.Keys - walk.entered|, 0, 0
  {
    if key in walk.entered then Ok(walk)
    else
      assert nodes.Keys - (walk.entered + {key}) == (nodes.Keys - walk.entered) - {key};
      var inside := walk.(entered := walk.entered + {key});
      match FollowAll(nodes, onPath + {key}, key, inside, Referenced(nodes, key))
      case Err(cycle) => Err(cycle)
      case Ok(finished) => Ok(finished.(finished := [key] + finished.finished))
  }

  function FollowAll(nodes: Graph, onPath: set<Node>, referrer: Node, walk: Walked, children: seq<Node>): (r: Outcome)
    requires Elements(children) <= nodes.Keys
    ensures r.Ok? ==> walk.entered <= r.value.entered
    decreases |nodes.Keys - walk.entered|, 1, |children|
  {
    if children == [] then Ok(walk)
    else
      assert children[0] in Elements(children);
      if children[0] in onPath then Err(ReferenceCycle(children[0], referrer))
      else
        match Visit(nodes, onPath, walk, children[0])
        case Err(cycle) => Err(cycle)
        case Ok(after) =>
          SubsetSize(nodes.Keys - after.entered, nodes.Keys - walk.entered);
          FollowAll(nodes, onPath, referrer, after, children[1..])
  }

  function VisitEach(nodes: Graph, walk: Walked, keys: seq<Node>): Outcome
    requires Elements(keys) <= nodes.Keys
    decreases |keys|
  {
    if keys == [] then Ok(walk)
    else
      assert keys[0] in Elements(keys);
      match Visit(nodes, {}, walk, keys[0])
      case Err(cycle) => Err(cycle)
      case Ok(after) => VisitEach(nodes, after, keys[1..])
  }

  function OrderByReferences(nodes: Graph): Result<seq<Node>, ReferenceCycle> {
    match VisitEach(nodes, Walked({}, []), AscendingPaths(nodes.Keys))
    case Err(cycle) => Err(cycle)
    case Ok(walk) => Ok(Reverse(walk.finished))
  }

  // ---- The walk ---------------------------------------------------------

  /** What is entered is on the path or finished, once, after what it references. */
  ghost predicate Consistent(nodes: Graph, onPath: set<Node>, walk: Walked) {
    && walk.entered == onPath + Elements(walk.finished)
    && onPath !! Elements(walk.finished)
    && walk.entered <= nodes.Keys
    && NoDuplicates(walk.finished)
    && SuccessorsFirst(Proper(nodes), Reverse(walk.finished))
  }

  /** A genuine cycle, by the edge that closes it. */
  ghost predicate ClosesCycle(nodes: Graph, c: ReferenceCycle) {
    Edge(Proper(nodes), c.referrer, c.node) && Reaches(Proper(nodes), c.node, c.referrer)
  }

  ghost predicate AllReach(nodes: Graph, onPath: set<Node>, key: Node) {
    forall a :: a in onPath ==> Reaches(Proper(nodes), a, key)
  }

  lemma ReferencedAreEdges(nodes: Graph, key: Node)
    requires key in nodes
    ensures forall b :: b in Referenced(nodes, key) <==> Edge(Proper(nodes), key, b)
  {
  }

  lemma AllReachStep(nodes: Graph, onPath: set<Node>, key: Node, child: Node)
    requires AllReach(nodes, onPath, key) && Edge(Proper(nodes), key, child)
    ensures AllReach(nodes, onPath, child)
  {
    forall a | a in onPath
      ensures Reaches(Proper(nodes), a, child)
    {
      ReachesStep(Proper(nodes), a, key, child);
    }
  }

  lemma {:induction false} VisitWalks(nodes: Graph, onPath: set<Node>, walk: Walked, key: Node)
    requires key in nodes && key !in onPath
    requires Consistent(nodes, onPath, walk) && AllReach(nodes, onPath, key)
    ensures var r := Visit(nodes, onPath, walk, key);
            && (r.Ok? ==> Consistent(nodes, onPath, r.value) && key in r.value.finished
                          && Elements(walk.finished) <= Elements(r.value.finished))
            && (r.Err? ==> ClosesCycle(nodes, r.error))
    decreases |nodes.Keys - walk.entered|, 0, 0
  {
    if key !in walk.entered {
      assert nodes.Keys - (walk.entered + {key}) == (nodes.Keys - walk.entered) - {key};
      var inside := walk.(entered := walk.entered + {key});
      EnterKeepsConsistent(nodes, onPath, walk, key);
      ReferencedAreEdges(nodes, key);
      FollowAllWalks(nodes, onPath + {key}, key, inside, Referenced(nodes, key));
      FollowedFinishes(nodes, onPath, walk, key, FollowAll(nodes, onPath + {key}, key, inside, Referenced(nodes, key)));
    } else {
      SeenIsFinished(nodes, onPath, walk, key);
    }
  }

  /** With everything a node references finished, so is the node. */
  lemma FollowedFinishes(nodes: Graph, onPath: set<Node>, walk: Walked, key: Node, r: Result<Walked, ReferenceCycle>)
    requires key in nodes && key !in onPath
    requires forall b :: b in Referenced(nodes, key) <==> Edge(Proper(nodes), key, b)
    requires r.Ok? ==> Consistent(nodes, onPath + {key}, r.value)
                       && Elements(Referenced(nodes, key)) + Elements(walk.finished) <= Elements(r.value.finished)
    ensures r.Ok? ==> var finished := r.value.(finished := [key] + r.value.finished);
                      Consistent(nodes, onPath, finished) && key in finished.finished
                      && Elements(walk.finished) <= Elements(finished.finished)
  {
    if r.Ok? {
      forall b | Edge(Proper(nodes), key, b)
        ensures b in r.value.finished
      {
        assert b in Elements(Referenced(nodes, key));
      }
      FinishKeepsConsistent(nodes, onPath, r.value, key);
    }
  }

  lemma SeenIsFinished(nodes: Graph, onPath: set<Node>, walk: Walked, key: Node)
    requires Consistent(nodes, onPath, walk) && key in walk.entered && key !in onPath
    ensures key in walk.finished
  {
  }

  lemma EnterKeepsConsistent(nodes: Graph, onPath: set<Node>, walk: Walked, key: Node)
    requires key in nodes && key !in walk.entered
    requires Consistent(nodes, onPath, walk) && AllReach(nodes, onPath, key)
    ensures Consistent(nodes, onPath + {key}, walk.(entered := walk.entered + {key}))
    ensures AllReach(nodes, onPath + {key}, key)
  {
    ReachesSelf(Proper(nodes), key);
    assert onPath + {key} + Elements(walk.finished) == walk.entered + {key};
  }

  lemma FinishKeepsConsistent(nodes: Graph, onPath: set<Node>, walk: Walked, key: Node)
    requires key in nodes && key !in onPath && Consistent(nodes, onPath + {key}, walk)
    requires forall b :: Edge(Proper(nodes), key, b) ==> b in walk.finished
    ensures Consistent(nodes, onPath, walk.(finished := [key] + walk.finished))
    ensures Elements([key] + walk.finished) == {key} + Elements(walk.finished)
  {
    var finished := [key] + walk.finished;
    assert Elements(finished) == {key} + Elements(walk.finished);
    var order := Reverse(walk.finished);
    assert Reverse(finished) == order + [key];
    forall i, b | 0 <= i < |order + [key]| && Edge(Proper(nodes), (order + [key])[i], b)
      ensures b in (order + [key])[..i]
    {
      if i < |order| {
        assert (order + [key])[..i] == order[..i];
      } else {
        assert (order + [key])[..i] == order;
        var j :| 0 <= j < |walk.finished| && walk.finished[j] == b;
        assert order[|order| - 1 - j] == b;
      }
    }
  }

  lemma {:induction false} FollowAllWalks(nodes: Graph, onPath: set<Node>, referrer: Node, walk: Walked,
                                          children: seq<Node>)
    requires Elements(children) <= nodes.Keys
    requires Consistent(nodes, onPath, walk) && AllReach(nodes, onPath, referrer)
    requires forall b :: b in children ==> Edge(Proper(nodes), referrer, b)
    ensures var r := FollowAll(nodes, onPath, referrer, walk, children);
            && (r.Ok? ==> Consistent(nodes, onPath, r.value)
                          && Elements(children) + Elements(walk.finished) <= Elements(r.value.finished))
            && (r.Err? ==> ClosesCycle(nodes, r.error))
    decreases |nodes.Keys - walk.entered|, 1, |children|
  {
    if children != [] {
      var child := children[0];
      assert child in Elements(children);
      if child !in onPath {
        AllReachStep(nodes, onPath, referrer, child);
        VisitWalks(nodes, onPath, walk, child);
        var one := Visit(nodes, onPath, walk, child);
        if one.Ok? {
          SubsetSize(nodes.Keys - one.value.entered, nodes.Keys - walk.entered);
          FollowAllWalks(nodes, onPath, referrer, one.value, children[1..]);
          assert Elements(children) == {child} + Elements(children[1..]);
        }
      }
    }
  }

  lemma {:induction false} VisitEachWalks(nodes: Graph, walk: Walked, keys: seq<Node>)
    requires Elements(keys) <= nodes.Keys && Consistent(nodes, {}, walk)
    ensures var r := VisitEach(nodes, walk, keys);
            && (r.Ok? ==> Consistent(nodes, {}, r.value)
                          && Elements(keys) + Elements(walk.finished) <= Elements(r.value.finished))
            && (r.Err? ==> ClosesCycle(nodes, r.error))
    decreases |keys|
  {
    if keys != [] {
      assert keys[0] in Elements(keys);
      VisitWalks(nodes, {}, walk, keys[0]);
      var one := Visit(nodes, {}, walk, keys[0]);
      if one.Ok? {
        VisitEachWalks(nodes, one.value, keys[1..]);
        assert Elements(keys) == {keys[0]} + Elements(keys[1..]);
      }
    }
  }

  // ---- What the order promises ------------------------------------------

  /** An order exists exactly when the references hold no cycle but a node's own;
      it then lists every node once, after everything it references.  Otherwise
      the answer is a real reference closing a real cycle. */
  lemma OrderByReferencesIsExact(nodes: Graph)
    ensures var r := OrderByReferences(nodes);
            && (r.Ok? <==> Acyclic(Proper(nodes)))
            && (r.Ok? ==> NoDuplicates(r.value) && Elements(r.value) == nodes.Keys
                          && SuccessorsFirst(Proper(nodes), r.value))
            && (r.Err? ==> ClosesCycle(nodes, r.error))
  {
    var start := Walked({}, []);
    assert Reverse(start.finished) == [];
    var keys := AscendingPaths(nodes.Keys);
    VisitEachWalks(nodes, start, keys);
    var r := OrderByReferences(nodes);
    if r.Ok? {
      var walk := VisitEach(nodes, start, keys).value;
      ReversedHolds(walk.finished);
      assert forall k :: k in nodes ==> k in Elements(keys);
      OrderedIsAcyclic(Proper(nodes), r.value);
    } else {
      assert ReachesPast(Proper(nodes), r.error.referrer, r.error.referrer);
    }
  }

  lemma ReversedHolds(s: seq<Node>)
    requires NoDuplicates(s)
    ensures NoDuplicates(Reverse(s)) && Elements(Reverse(s)) == Elements(s)
  {
    forall x | x in s
      ensures x in Reverse(s)
    {
      var i :| 0 <= i < |s| && s[i] == x;
      assert Reverse(s)[|s| - 1 - i] == x;
    }
  }
}

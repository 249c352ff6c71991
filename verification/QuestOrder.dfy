/** Display order of a quest graph's nodes (client/src/api/quest_store.ts).

    The source walks the graph with an explicit stack. Here that loop is proved to
    produce the preorder of a plain recursive depth-first walk, on every graph: cyclic
    ones and ones with dangling edges included. */
module QuestOrder {

  type NodeId = string

  /** Only the fields the walk looks at; `content` stands for everything that is merely displayed. */
  datatype QuestNode = QuestNode(nodeId: NodeId, content: string, targets: seq<NodeId>)

  /** `keyOrder` is the order in which the record's keys are enumerated. */
  datatype QuestGraph = QuestGraph(initial: NodeId, nodes: map<NodeId, QuestNode>, keyOrder: seq<NodeId>) {
    ghost predicate Valid() {
      && (forall k :: k in keyOrder <==> k in nodes)
      && Distinct(keyOrder)
    }
  }

  ghost predicate Distinct<T>(s: seq<T>) {
    forall i, j :: 0 <= i < j < |s| ==> s[i] != s[j]
  }

  ghost function Elements<T>(s: seq<T>): set<T> {
    set x | x in s
  }

  // ---------------------------------------------------------------- the recursive walk

  /** Depth-first preorder from each of `ids` in turn, skipping keys in `seen` and keys without a node. */
  ghost function Walk(g: QuestGraph, ids: seq<NodeId>, seen: set<NodeId>): seq<NodeId>
    decreases g.nodes.Keys - seen, ids
  {
    if ids == [] then []
    else if ids[0] in seen || ids[0] !in g.nodes then Walk(g, ids[1..], seen)
    else
      var here := [ids[0]] + Walk(g, g.nodes[ids[0]].targets, seen + {ids[0]});
      assert ids[0] in Elements(here);
      here + Walk(g, ids[1..], seen + Elements(here))
  }

  lemma {:induction false} WalkAppend(g: QuestGraph, a: seq<NodeId>, b: seq<NodeId>, seen: set<NodeId>)
    ensures Walk(g, a + b, seen) == Walk(g, a, seen) + Walk(g, b, seen + Elements(Walk(g, a, seen)))
    decreases g.nodes.Keys - seen, a
  {
    if a == [] {
      assert a + b == b && seen + Elements(Walk(g, a, seen)) == seen;
    } else {
      assert (a + b)[1..] == a[1..] + b;
      if a[0] in seen || a[0] !in g.nodes {
        WalkAppend(g, a[1..], b, seen);
      } else {
        var here := [a[0]] + Walk(g, g.nodes[a[0]].targets, seen + {a[0]});
        assert a[0] in Elements(here);
        WalkAppend(g, a[1..], b, seen + Elements(here));
        var rest := Walk(g, a[1..], seen + Elements(here));
        assert seen + Elements(here) + Elements(rest) == seen + Elements(here + rest);
      }
    }
  }

  /** What popping a key does to the keys still to be listed: a seen or dangling one drops out,
      a new one is listed and its choices go in front. */
  lemma VisitStep(g: QuestGraph, id: NodeId, waiting: seq<NodeId>, seen: set<NodeId>)
    ensures Walk(g, [id] + waiting, seen) ==
            if id in seen || id !in g.nodes then Walk(g, waiting, seen)
            else [id] + Walk(g, g.nodes[id].targets + waiting, seen + {id})
  {
    assert ([id] + waiting)[1..] == waiting;
    if id !in seen && id in g.nodes {
      var below := Walk(g, g.nodes[id].targets, seen + {id});
      assert seen + Elements([id] + below) == seen + {id} + Elements(below) by {
        assert Elements([id] + below) == {id} + Elements(below);
      }
      WalkAppend(g, g.nodes[id].targets, waiting, seen + {id});
    }
  }

  lemma DistinctAppend<T>(a: seq<T>, b: seq<T>)
    requires Distinct(a) && Distinct(b)
    requires forall x :: x in b ==> x !in a
    ensures Distinct(a + b)
  {
    forall i, j | 0 <= i < j < |a + b| ensures (a + b)[i] != (a + b)[j] {
      if i < |a| && j >= |a| {
        assert b[j - |a|] in b && a[i] in a;
      }
    }
  }

  /** A walk lists new keys of the graph, each once. */
  lemma {:induction false} WalkFresh(g: QuestGraph, ids: seq<NodeId>, seen: set<NodeId>)
    ensures Distinct(Walk(g, ids, seen))
    ensures forall x :: x in Walk(g, ids, seen) ==> x in g.nodes && x !in seen
    decreases g.nodes.Keys - seen, ids
  {
    if ids == [] {
    } else if ids[0] in seen || ids[0] !in g.nodes {
      WalkFresh(g, ids[1..], seen);
    } else {
      WalkFresh(g, g.nodes[ids[0]].targets, seen + {ids[0]});
      var here := [ids[0]] + Walk(g, g.nodes[ids[0]].targets, seen + {ids[0]});
      assert ids[0] in Elements(here);
      WalkFresh(g, ids[1..], seen + Elements(here));
      DistinctAppend(here, Walk(g, ids[1..], seen + Elements(here)));
    }
  }

  /** A walk leaves no edge unexplored: targets of what it lists were seen before or are listed too. */
  lemma {:induction false} WalkClosed(g: QuestGraph, ids: seq<NodeId>, seen: set<NodeId>)
    ensures forall x :: x in ids && x in g.nodes ==> x in seen || x in Walk(g, ids, seen)
    ensures forall x, y :: x in Walk(g, ids, seen) && x in g.nodes && y in g.nodes[x].targets && y in g.nodes ==>
                             y in seen || y in Walk(g, ids, seen)
    decreases g.nodes.Keys - seen, ids
  {
    if ids == [] {
    } else if ids[0] in seen || ids[0] !in g.nodes {
      WalkClosed(g, ids[1..], seen);
    } else {
      WalkClosed(g, g.nodes[ids[0]].targets, seen + {ids[0]});
      var here := [ids[0]] + Walk(g, g.nodes[ids[0]].targets, seen + {ids[0]});
      assert ids[0] in Elements(here);
      WalkClosed(g, ids[1..], seen + Elements(here));
      assert forall x :: x in Walk(g, ids, seen) <==> x in here || x in Walk(g, ids[1..], seen + Elements(here));
    }
  }

  // ---------------------------------------------------------------- reachability by paths

  /** `path` follows choice edges through existing nodes, from its first key to `to`. */
  ghost predicate IsPath(g: QuestGraph, path: seq<NodeId>, to: NodeId) {
    && path != []
    && path[0] in g.nodes
    && if |path| == 1 then path[0] == to
       else path[1] in g.nodes[path[0]].targets && IsPath(g, path[1..], to)
  }

  ghost predicate Leads(g: QuestGraph, from: NodeId, to: NodeId) {
    exists path :: IsPath(g, path, to) && path[0] == from
  }

  ghost function Reached(g: QuestGraph): set<NodeId> {
    set k | k in g.nodes && Leads(g, g.initial, k)
  }

  lemma {:induction false} WalkIsReachable(g: QuestGraph, ids: seq<NodeId>, seen: set<NodeId>, x: NodeId)
    returns (from: NodeId)
    requires x in Walk(g, ids, seen)
    ensures from in ids && Leads(g, from, x)
    decreases g.nodes.Keys - seen, ids
  {
    var id := ids[0];
    if id in seen || id !in g.nodes {
      from := WalkIsReachable(g, ids[1..], seen, x);
    } else {
      var below := Walk(g, g.nodes[id].targets, seen + {id});
      assert id in Elements([id] + below);
      if x == id {
        assert IsPath(g, [id], id);
        from := id;
      } else if x in below {
        var child := WalkIsReachable(g, g.nodes[id].targets, seen + {id}, x);
        var path :| IsPath(g, path, x) && path[0] == child;
        assert ([id] + path)[1..] == path;
        assert IsPath(g, [id] + path, x);
        from := id;
      } else {
        from := WalkIsReachable(g, ids[1..], seen + Elements([id] + below), x);
      }
    }
  }

  lemma {:induction false} PathIsWalked(g: QuestGraph, path: seq<NodeId>, to: NodeId)
    requires IsPath(g, path, to) && path[0] in Walk(g, [g.initial], {})
    ensures to in Walk(g, [g.initial], {})
  {
    if |path| > 1 {
      WalkClosed(g, [g.initial], {});
      assert IsPath(g, path[1..], to);
      PathIsWalked(g, path[1..], to);
    }
  }

  /** The walk lists exactly the keys a path of choices can reach, each exactly once. */
  lemma WalkIsReached(g: QuestGraph)
    ensures Elements(Walk(g, [g.initial], {})) == Reached(g)
    ensures Distinct(Walk(g, [g.initial], {}))
  {
    var walk := Walk(g, [g.initial], {});
    WalkFresh(g, [g.initial], {});
    forall k | k in walk ensures k in Reached(g) {
      var from := WalkIsReachable(g, [g.initial], {}, k);
    }
    forall k | k in Reached(g) ensures k in walk {
      var path :| IsPath(g, path, k) && path[0] == g.initial;
      WalkClosed(g, [g.initial], {});
      PathIsWalked(g, path, k);
    }
  }

  // ---------------------------------------------------------------- the whole list

  ghost function NodesAt(g: QuestGraph, keys: seq<NodeId>): seq<QuestNode> {
    if keys == [] then []
    else if keys[0] in g.nodes then [g.nodes[keys[0]]] + NodesAt(g, keys[1..])
    else NodesAt(g, keys[1..])
  }

  lemma {:induction false} NodesAtAppend(g: QuestGraph, a: seq<NodeId>, b: seq<NodeId>)
    ensures NodesAt(g, a + b) == NodesAt(g, a) + NodesAt(g, b)
  {
    if a == [] {
      assert a + b == b;
    } else {
      assert (a + b)[1..] == a[1..] + b;
      NodesAtAppend(g, a[1..], b);
    }
  }

  /** The keys outside `excluded`, in order. */
  ghost function Outside(keys: seq<NodeId>, excluded: set<NodeId>): seq<NodeId> {
    if keys == [] then []
    else if keys[0] in excluded then Outside(keys[1..], excluded)
    else [keys[0]] + Outside(keys[1..], excluded)
  }

  lemma {:induction false} OutsideMembers(keys: seq<NodeId>, excluded: set<NodeId>)
    ensures forall k :: k in Outside(keys, excluded) <==> k in keys && k !in excluded
  {
    if keys != [] {
      OutsideMembers(keys[1..], excluded);
      assert forall k :: k in keys <==> k == keys[0] || k in keys[1..];
    }
  }

  /** Keys whose node carries the id of a reached node: what the second loop leaves out. */
  ghost function Claimed(g: QuestGraph): set<NodeId> {
    set k | k in g.nodes && g.nodes[k].nodeId in Reached(g)
  }

  /** Reached nodes in preorder, then the nodes whose own id was not reached, in record order. */
  ghost function DisplayOrder(g: QuestGraph): seq<QuestNode>
  {
    NodesAt(g, Walk(g, [g.initial], {})) + NodesAt(g, Outside(g.keyOrder, Claimed(g)))
  }

  ghost function Reversed<T>(s: seq<T>): seq<T> {
    if s == [] then [] else [s[|s| - 1]] + Reversed(s[..|s| - 1])
  }

  /** The source's two loops: a stack walk that marks at pop and pushes the choices in reverse,
      then a pass over the record for the nodes whose id was never marked. */
  method OrderQuestNodes(g: QuestGraph) returns (ordered: seq<QuestNode>)
    requires g.Valid()
    ensures ordered == DisplayOrder(g)
  {
    ordered := [];
    var seen: set<NodeId> := {};
    var stack := [g.initial];
    ghost var visited: seq<NodeId> := [];
    ghost var whole := Walk(g, [g.initial], {});
    assert Reversed(stack) == [g.initial];
    while stack != []
      invariant seen == Elements(visited)
      invariant whole == visited + Walk(g, Reversed(stack), seen)
      invariant ordered == NodesAt(g, visited)
      decreases g.nodes.Keys - seen, |stack|
    {
      var id := stack[|stack| - 1];
      stack := stack[..|stack| - 1];
      VisitStep(g, id, Reversed(stack), seen);
      if id in seen { continue; }
      if id !in g.nodes { continue; }
      var node := g.nodes[id];
      NodesAtAppend(g, visited, [id]);
      seen := seen + {id};
      ordered := ordered + [node];
      visited := visited + [id];
      stack := PushChoices(node.targets, stack);
    }
    assert visited == whole;
    WalkIsReached(g);
    ordered := AppendUnmarked(g, seen, ordered);
  }

  /** The inner loop of the walk. */
  method PushChoices(targets: seq<NodeId>, base: seq<NodeId>) returns (stack: seq<NodeId>)
    ensures Reversed(stack) == targets + Reversed(base)
  {
    stack := base;
    var i := |targets|;
    while i > 0
      invariant 0 <= i <= |targets|
      invariant Reversed(stack) == targets[i..] + Reversed(base)
    {
      i := i - 1;
      assert (stack + [targets[i]])[..|stack|] == stack;
      stack := stack + [targets[i]];
    }
  }

  /** The closing loop over the record. */
  method AppendUnmarked(g: QuestGraph, seen: set<NodeId>, walked: seq<QuestNode>) returns (ordered: seq<QuestNode>)
    requires g.Valid() && seen == Reached(g)
    ensures ordered == walked + NodesAt(g, Outside(g.keyOrder, Claimed(g)))
  {
    ordered := walked;
    ghost var claimed := Claimed(g);
    var i := 0;
    assert g.keyOrder[0..] == g.keyOrder;
    while i < |g.keyOrder|
      invariant 0 <= i <= |g.keyOrder|
      invariant walked + NodesAt(g, Outside(g.keyOrder, claimed)) ==
                ordered + NodesAt(g, Outside(g.keyOrder[i..], claimed))
    {
      var key := g.keyOrder[i];
      OutsideStep(g, g.keyOrder[i..], claimed);
      assert g.keyOrder[i..][1..] == g.keyOrder[i + 1..];
      if g.nodes[key].nodeId !in seen {
        ordered := ordered + [g.nodes[key]];
      }
      i := i + 1;
    }
  }

  lemma OutsideStep(g: QuestGraph, keys: seq<NodeId>, excluded: set<NodeId>)
    requires keys != [] && keys[0] in g.nodes
    ensures NodesAt(g, Outside(keys, excluded)) ==
            (if keys[0] in excluded then [] else [g.nodes[keys[0]]]) + NodesAt(g, Outside(keys[1..], excluded))
  {
    if keys[0] !in excluded {
      assert ([keys[0]] + Outside(keys[1..], excluded))[1..] == Outside(keys[1..], excluded);
    }
  }

  // ---------------------------------------------------------------- when nothing is lost or doubled

  /** How often each node occurs at `keys`. */
  ghost function Bag(g: QuestGraph, keys: seq<NodeId>): multiset<QuestNode> {
    if keys == [] then multiset{}
    else if keys[0] in g.nodes then multiset{g.nodes[keys[0]]} + Bag(g, keys[1..])
    else Bag(g, keys[1..])
  }

  lemma {:induction false} BagOfNodes(g: QuestGraph, keys: seq<NodeId>)
    ensures multiset(NodesAt(g, keys)) == Bag(g, keys)
  {
    if keys != [] {
      BagOfNodes(g, keys[1..]);
    }
  }

  ghost function Remove<T>(s: seq<T>, i: nat): seq<T>
    requires i < |s|
  {
    s[..i] + s[i + 1..]
  }

  lemma {:induction false} BagWithout(g: QuestGraph, keys: seq<NodeId>, i: nat)
    requires i < |keys| && keys[i] in g.nodes
    ensures Bag(g, keys) == multiset{g.nodes[keys[i]]} + Bag(g, Remove(keys, i))
  {
    if i == 0 {
      assert Remove(keys, 0) == keys[1..];
    } else {
      BagWithout(g, keys[1..], i - 1);
      assert Remove(keys, i)[1..] == Remove(keys[1..], i - 1);
    }
  }

  lemma RemoveOne<T>(s: seq<T>, i: nat)
    requires i < |s| && Distinct(s)
    ensures Distinct(Remove(s, i))
    ensures forall x :: x in Remove(s, i) <==> x in s && x != s[i]
  {
    var t := Remove(s, i);
    forall x | x in s && x != s[i] ensures x in t {
      var j :| 0 <= j < |s| && s[j] == x;
      assert t[if j < i then j else j - 1] == x;
    }
  }

  lemma {:induction false} SameKeysSameNodes(g: QuestGraph, a: seq<NodeId>, b: seq<NodeId>)
    requires Distinct(a) && Distinct(b) && (forall k :: k in a <==> k in b)
    requires forall k :: k in a ==> k in g.nodes
    ensures Bag(g, a) == Bag(g, b)
    decreases |a|
  {
    assert |b| > 0 ==> b[0] in b;
    if a != [] {
      assert a[0] in b;
      var i :| 0 <= i < |b| && b[i] == a[0];
      RemoveOne(a, 0);
      RemoveOne(b, i);
      BagWithout(g, a, 0);
      BagWithout(g, b, i);
      SameKeysSameNodes(g, Remove(a, 0), Remove(b, i));
    }
  }

  /** Splitting a key list into kept and excluded keys keeps every node. */
  lemma {:induction false} SplitKeepsNodes(g: QuestGraph, keys: seq<NodeId>, excluded: set<NodeId>)
    requires forall k :: k in keys ==> k in g.nodes
    ensures Bag(g, keys) == Bag(g, Outside(keys, excluded)) + Bag(g, Outside(keys, g.nodes.Keys - excluded))
  {
    if keys != [] {
      SplitKeepsNodes(g, keys[1..], excluded);
      BagStep(g, keys, excluded);
      BagStep(g, keys, g.nodes.Keys - excluded);
      assert keys[0] in keys;
    }
  }

  lemma BagStep(g: QuestGraph, keys: seq<NodeId>, excluded: set<NodeId>)
    requires keys != [] && keys[0] in g.nodes
    ensures Bag(g, Outside(keys, excluded)) ==
            (if keys[0] in excluded then multiset{} else multiset{g.nodes[keys[0]]}) +
                Bag(g, Outside(keys[1..], excluded))
  {
    if keys[0] !in excluded {
      assert ([keys[0]] + Outside(keys[1..], excluded))[1..] == Outside(keys[1..], excluded);
    }
  }

  lemma {:induction false} OutsideDistinct(keys: seq<NodeId>, excluded: set<NodeId>)
    requires Distinct(keys)
    ensures Distinct(Outside(keys, excluded))
  {
    if keys != [] {
      OutsideDistinct(keys[1..], excluded);
      OutsideMembers(keys[1..], excluded);
    }
  }

  /** Two leftovers with the same nodes, where every node of the second is outside both sets,
      leave out the same keys. */
  lemma {:induction false} LeftoverCount(g: QuestGraph, keys: seq<NodeId>, small: set<NodeId>, large: set<NodeId>)
    requires small <= large && forall k :: k in keys ==> k in g.nodes
    ensures |Bag(g, Outside(keys, large))| <= |Bag(g, Outside(keys, small))|
    ensures (exists k :: k in keys && k in large && k !in small) ==>
              |Bag(g, Outside(keys, large))| < |Bag(g, Outside(keys, small))|
  {
    if keys != [] {
      LeftoverCount(g, keys[1..], small, large);
      assert keys[0] in keys;
      BagStep(g, keys, small);
      BagStep(g, keys, large);
    }
  }

  lemma {:induction false} BagMember(g: QuestGraph, keys: seq<NodeId>, n: QuestNode)
    ensures n in Bag(g, keys) <==> exists k :: k in keys && k in g.nodes && g.nodes[k] == n
  {
    if keys != [] {
      BagMember(g, keys[1..], n);
      assert forall k :: k in keys <==> k == keys[0] || k in keys[1..];
    }
  }

  /** The display list and the record differ only in what they hold beside the reached nodes. */
  lemma DisplayOrderSplits(g: QuestGraph) returns (common: multiset<QuestNode>)
    requires g.Valid()
    ensures multiset(DisplayOrder(g)) == common + Bag(g, Outside(g.keyOrder, Claimed(g)))
    ensures multiset(NodesAt(g, g.keyOrder)) == common + Bag(g, Outside(g.keyOrder, Reached(g)))
  {
    var walk, tail := Walk(g, [g.initial], {}), Outside(g.keyOrder, Claimed(g));
    common := Bag(g, walk);
    BagOfNodes(g, walk);
    BagOfNodes(g, tail);
    BagOfNodes(g, g.keyOrder);
    var listed := Outside(g.keyOrder, g.nodes.Keys - Reached(g));
    WalkIsReached(g);
    SplitKeepsNodes(g, g.keyOrder, Reached(g));
    OutsideDistinct(g.keyOrder, g.nodes.Keys - Reached(g));
    OutsideMembers(g.keyOrder, g.nodes.Keys - Reached(g));
    assert forall k :: k in walk <==> k in Elements(walk);
    SameKeysSameNodes(g, walk, listed);
  }

  lemma EqualLeftovers(g: QuestGraph)
    requires g.Valid()
    requires Bag(g, Outside(g.keyOrder, Reached(g))) == Bag(g, Outside(g.keyOrder, Claimed(g)))
    ensures Claimed(g) == Reached(g)
  {
    var reached, claimed := Reached(g), Claimed(g);
    OutsideMembers(g.keyOrder, reached);
    OutsideMembers(g.keyOrder, claimed);
    forall k | k in claimed ensures k in reached {
      if k !in reached {
        BagMember(g, Outside(g.keyOrder, reached), g.nodes[k]);
        BagMember(g, Outside(g.keyOrder, claimed), g.nodes[k]);
      }
    }
    LeftoverCount(g, g.keyOrder, claimed, reached);
  }

  lemma CancelCommon<T>(common: multiset<T>, a: multiset<T>, b: multiset<T>)
    ensures common + a == common + b <==> a == b
  {
    assert common + a - common == a && common + b - common == b;
  }

  /** The display list is a permutation of the graph's nodes exactly when, for every key, the
      key is reached if and only if the id its node carries is reached. */
  lemma PermutationExactlyWhenIdsAgree(g: QuestGraph)
    requires g.Valid()
    ensures multiset(DisplayOrder(g)) == multiset(NodesAt(g, g.keyOrder)) <==>
            forall k :: k in g.nodes ==> (k in Reached(g) <==> g.nodes[k].nodeId in Reached(g))
  {
    var common := DisplayOrderSplits(g);
    var reached, claimed := Reached(g), Claimed(g);
    CancelCommon(common, Bag(g, Outside(g.keyOrder, claimed)), Bag(g, Outside(g.keyOrder, reached)));
    if Bag(g, Outside(g.keyOrder, reached)) == Bag(g, Outside(g.keyOrder, claimed)) {
      EqualLeftovers(g);
    }
    assert claimed == reached <==> forall k :: k in g.nodes ==> (k in reached <==> k in claimed);
  }

  /** Graphs keyed by node id: every node is shown exactly once, the reached ones first. */
  lemma WellKeyedIsPermutation(g: QuestGraph)
    requires g.Valid()
    requires forall k :: k in g.nodes ==> g.nodes[k].nodeId == k
    ensures multiset(DisplayOrder(g)) == multiset(NodesAt(g, g.keyOrder))
    ensures NodesAt(g, Walk(g, [g.initial], {})) <= DisplayOrder(g)
  {
    PermutationExactlyWhenIdsAgree(g);
  }
}

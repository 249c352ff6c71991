/** The order of the quest walk (client/src/api/quest_store.ts) told position by position: what is listed next is the
    first unlisted choice of the latest node that still has one. */
module QuestPreorder {
  import opened QuestOrder

  datatype Pick = Nobody | Pick(id: NodeId)

  /** The first of `ids` that has a node and is not listed yet. */
  ghost function FirstOpen(g: QuestGraph, ids: seq<NodeId>, listed: set<NodeId>): Pick {
    if ids == [] then Nobody
    else if ids[0] in g.nodes && ids[0] !in listed then Pick(ids[0])
    else FirstOpen(g, ids[1..], listed)
  }

  /** The first open choice of the latest of `path` that has one. */
  ghost function Nearest(g: QuestGraph, path: seq<NodeId>, listed: set<NodeId>): Pick
    requires forall k :: k in path ==> k in g.nodes
  {
    if path == [] then Nobody
    else
      var own := FirstOpen(g, g.nodes[path[|path| - 1]].targets, listed);
      if own.Pick? then own else Nearest(g, path[..|path| - 1], listed)
  }

  ghost function OrElse(a: Pick, b: Pick): Pick {
    if a.Pick? then a else b
  }

  lemma {:induction false} NearestAppend(g: QuestGraph, a: seq<NodeId>, b: seq<NodeId>, listed: set<NodeId>)
    requires forall k :: k in a + b ==> k in g.nodes
    ensures (forall k :: k in a ==> k in g.nodes) && forall k :: k in b ==> k in g.nodes
    ensures Nearest(g, a + b, listed) == OrElse(Nearest(g, b, listed), Nearest(g, a, listed))
  {
    assert forall k :: k in a ==> k in a + b;
    assert forall k :: k in b ==> k in a + b;
    if b == [] {
      assert a + b == a;
    } else {
      var front := b[..|b| - 1];
      assert (a + b)[..|a + b| - 1] == a + front;
      assert forall k :: k in a + front ==> k in a + b;
      NearestAppend(g, a, front, listed);
    }
  }

  lemma {:induction false} OpenShrinks(g: QuestGraph, ids: seq<NodeId>, few: set<NodeId>, many: set<NodeId>)
    requires few <= many && FirstOpen(g, ids, few) == Nobody
    ensures FirstOpen(g, ids, many) == Nobody
  {
    if ids != [] { OpenShrinks(g, ids[1..], few, many); }
  }

  lemma {:induction false} NearestShrinks(g: QuestGraph, path: seq<NodeId>, few: set<NodeId>, many: set<NodeId>)
    requires (forall k :: k in path ==> k in g.nodes) && few <= many && Nearest(g, path, few) == Nobody
    ensures Nearest(g, path, many) == Nobody
  {
    if path != [] {
      OpenShrinks(g, g.nodes[path[|path| - 1]].targets, few, many);
      NearestShrinks(g, path[..|path| - 1], few, many);
    }
  }

  lemma NothingListed(g: QuestGraph, seen: set<NodeId>)
    ensures seen + Elements([]) == seen && Nearest(g, [], seen) == Nobody
  {
  }

  lemma HeadIsElement(id: NodeId, rest: seq<NodeId>)
    ensures id in Elements([id] + rest)
  {
  }

  lemma {:induction false} WalkIsGreedy(g: QuestGraph, ids: seq<NodeId>, seen: set<NodeId>, p: nat)
    requires p <= |Walk(g, ids, seen)|
    ensures forall k :: k in Walk(g, ids, seen) ==> k in g.nodes
    ensures var walk := Walk(g, ids, seen);
            var listed := seen + Elements(walk[..p]);
            OrElse(Nearest(g, walk[..p], listed), FirstOpen(g, ids, listed)) ==
            if p < |walk| then Pick(walk[p]) else Nobody
    decreases g.nodes.Keys - seen, ids
  {
    hide Nearest, Elements;
    WalkFresh(g, ids, seen);
    NothingListed(g, seen);
    var walk := Walk(g, ids, seen);
    if ids == [] {
    } else if ids[0] in seen || ids[0] !in g.nodes {
      WalkIsGreedy(g, ids[1..], seen, p);
    } else if p == 0 {
      assert walk[..0] == [];
    } else {
      var h := ids[0];
      var below := Walk(g, g.nodes[h].targets, seen + {h});
      HeadIsElement(h, below);
      var rest := Walk(g, ids[1..], seen + Elements([h] + below));
      assert walk == [h] + below + rest;
      WalkFresh(g, g.nodes[h].targets, seen + {h});
      if p - 1 < |below| {
        WalkIsGreedy(g, g.nodes[h].targets, seen + {h}, p - 1);
        assert walk[..p] == [h] + below[..p - 1];
        BelowIsGreedy(g, ids, seen, below[..p - 1]);
      } else {
        var r := p - 1 - |below|;
        WalkIsGreedy(g, g.nodes[h].targets, seen + {h}, |below|);
        WalkIsGreedy(g, ids[1..], seen + Elements([h] + below), r);
        assert below[..|below|] == below && walk[..p] == [h] + below + rest[..r];
        BelowIsGreedy(g, ids, seen, below);
        RestIsGreedy(g, ids, seen, [h] + below, rest[..r]);
      }
    }
  }

  lemma BelowIsGreedy(g: QuestGraph, ids: seq<NodeId>, seen: set<NodeId>, part: seq<NodeId>)
    requires ids != [] && ids[0] in g.nodes && forall k :: k in part ==> k in g.nodes
    ensures seen + Elements([ids[0]] + part) == seen + {ids[0]} + Elements(part)
    ensures forall k :: k in [ids[0]] + part ==> k in g.nodes
    ensures var listed := seen + Elements([ids[0]] + part);
            Nearest(g, [ids[0]] + part, listed) ==
            OrElse(Nearest(g, part, listed), FirstOpen(g, g.nodes[ids[0]].targets, listed))
  {
    assert Elements([ids[0]] + part) == {ids[0]} + Elements(part);
    var listed := seen + Elements([ids[0]] + part);
    NearestAppend(g, [ids[0]], part, listed);
    assert [ids[0]][..0] == [];
  }

  lemma RestIsGreedy(g: QuestGraph, ids: seq<NodeId>, seen: set<NodeId>, here: seq<NodeId>, part: seq<NodeId>)
    requires ids != [] && ids[0] in here && (forall k :: k in here + part ==> k in g.nodes)
    requires (forall k :: k in here ==> k in g.nodes) && Nearest(g, here, seen + Elements(here)) == Nobody
    ensures forall k :: k in part ==> k in g.nodes
    ensures seen + Elements(here + part) == seen + Elements(here) + Elements(part)
    ensures var listed := seen + Elements(here + part);
            && Nearest(g, here + part, listed) == Nearest(g, part, listed)
            && FirstOpen(g, ids, listed) == FirstOpen(g, ids[1..], listed)
  {
    assert Elements(here + part) == Elements(here) + Elements(part);
    NearestAppend(g, here, part, seen + Elements(here + part));
    NearestShrinks(g, here, seen + Elements(here), seen + Elements(here + part));
  }

  /** The walk begins at the initial node if that exists; after its first p keys comes the first unlisted choice, in
      authored order, of the latest listed node that has one; and it ends when no listed node has one. */
  lemma NextIsNearestOpenChoice(g: QuestGraph, p: nat)
    requires 0 < p <= |Walk(g, [g.initial], {})|
    ensures forall k :: k in Walk(g, [g.initial], {}) ==> k in g.nodes
    ensures Walk(g, [g.initial], {})[0] == g.initial
    ensures var walk := Walk(g, [g.initial], {});
            Nearest(g, walk[..p], Elements(walk[..p])) == if p < |walk| then Pick(walk[p]) else Nobody
  {
    var walk := Walk(g, [g.initial], {});
    WalkIsGreedy(g, [g.initial], {}, p);
    assert g.initial in walk[..p] by { assert walk[0] == g.initial; }
    assert {} + Elements(walk[..p]) == Elements(walk[..p]);
    assert [g.initial][1..] == [];
  }
}

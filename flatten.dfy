/** flattenTabs (src/renderer/App.tsx): the pre-order list of nodes the shell hands to the webview
    manager. */
module Flatten {
  import opened Tabs
  import opened TabTree
  import opened Forest

  /** visit(id): the node, then the walks of its children in order; an id with no node adds
      nothing. */
  function Visit(n: map<TabId, TabNode>, id: TabId): (r: seq<TabNode>)
    requires Ranked(n)
    ensures id !in n ==> r == []
    ensures id in n ==> |r| > 0 && r[0] == n[id]
    decreases AtLeast(n, id), 0
  {
    if id in n then
      assert id in AtLeast(n, id) - Above(n, id);
      [n[id]] + VisitAll(n, n[id].children, id)
    else []
  }

  /** ids.forEach(visit) for children of `above`: the walk opens with the first stored child. */
  function VisitAll(n: map<TabId, TabNode>, ids: seq<TabId>, above: TabId): (r: seq<TabNode>)
    requires Ranked(n)
    requires forall c :: c in ids ==> c > above
    ensures |ids| == 0 ==> r == []
    ensures |ids| > 0 && ids[0] in n ==> |r| > 0 && r[0] == n[ids[0]]
    decreases Above(n, above), 1, |ids|
  {
    if |ids| == 0 then []
    else
      var last := ids[|ids| - 1];
      var prefix := ids[..|ids| - 1];
      assert last in ids;
      assert forall c :: c in prefix ==> c in ids;
      assert AtLeast(n, last) <= Above(n, above);
      VisitAll(n, prefix, above) + Visit(n, last)
  }

  /** rootIds.forEach(visit): the walk opens with the first stored root. */
  function Flattened(n: map<TabId, TabNode>, roots: seq<TabId>): (r: seq<TabNode>)
    requires Ranked(n)
    ensures |roots| == 0 ==> r == []
    ensures |roots| > 0 && roots[0] in n ==> |r| > 0 && r[0] == n[roots[0]]
  {
    if |roots| == 0 then []
    else Flattened(n, roots[..|roots| - 1]) + Visit(n, roots[|roots| - 1])
  }

  function Ids(r: seq<TabNode>): (ids: seq<TabId>)
    ensures |ids| == |r| && forall i :: 0 <= i < |r| ==> ids[i] == r[i].id
  {
    if |r| == 0 then [] else Ids(r[..|r| - 1]) + [r[|r| - 1].id]
  }

  lemma {:induction false} IdsConcat(a: seq<TabNode>, b: seq<TabNode>)
    ensures Ids(a + b) == Ids(a) + Ids(b)
  {
    assert |Ids(a + b)| == |Ids(a) + Ids(b)|;
    forall i | 0 <= i < |a + b| ensures Ids(a + b)[i] == (Ids(a) + Ids(b))[i] {
      if i < |a| { assert (a + b)[i] == a[i]; } else { assert (a + b)[i] == b[i - |a|]; }
    }
  }

  // ---------------------------------------------------------------------------
  // The imperative walk.

  /** visit(id), pushing onto `ordered`. */
  method VisitInto(nodes: map<TabId, TabNode>, id: TabId, ordered: seq<TabNode>) returns (r: seq<TabNode>)
    requires Ranked(nodes)
    ensures r == ordered + Visit(nodes, id)
    decreases AtLeast(nodes, id), 0
  {
    if id !in nodes {
      return ordered;
    }
    assert id in AtLeast(nodes, id) - Above(nodes, id);
    r := VisitChildrenInto(nodes, id, ordered + [nodes[id]]);
  }

  /** node.children.forEach(visit), pushing onto `ordered`. */
  method VisitChildrenInto(nodes: map<TabId, TabNode>, id: TabId, ordered: seq<TabNode>) returns (r: seq<TabNode>)
    requires Ranked(nodes) && id in nodes
    ensures r == ordered + VisitAll(nodes, nodes[id].children, id)
    decreases Above(nodes, id), 1
  {
    var children := nodes[id].children;
    r := ordered;
    var i := 0;
    while i < |children|
      invariant 0 <= i <= |children|
      invariant forall c :: c in children[..i] ==> c > id
      invariant r == ordered + VisitAll(nodes, children[..i], id)
    {
      var childId := children[i];
      NextChild(nodes, id, i);
      r := VisitInto(nodes, childId, r);
      i := i + 1;
    }
    assert children[..|children|] == children;
  }

  /** The i-th child of id ranks above it, and walking it extends the walk of the first i. */
  lemma NextChild(n: map<TabId, TabNode>, id: TabId, i: nat)
    requires Ranked(n) && id in n && i < |n[id].children|
    requires forall c :: c in n[id].children[..i] ==> c > id
    ensures n[id].children[i] > id && AtLeast(n, n[id].children[i]) <= Above(n, id)
    ensures n[id].children[..i + 1] == n[id].children[..i] + [n[id].children[i]]
    ensures VisitAll(n, n[id].children[..i + 1], id)
      == VisitAll(n, n[id].children[..i], id) + Visit(n, n[id].children[i])
  {
    var children := n[id].children;
    assert children[i] in n[id].children;
    assert children[..i + 1] == children[..i] + [children[i]];
    VisitAllSnoc(n, children[..i], children[i], id);
  }

  /** One more child walked. */
  lemma VisitAllSnoc(n: map<TabId, TabNode>, prefix: seq<TabId>, c: TabId, above: TabId)
    requires Ranked(n) && c > above && forall x :: x in prefix ==> x > above
    ensures VisitAll(n, prefix + [c], above) == VisitAll(n, prefix, above) + Visit(n, c)
  {
    assert (prefix + [c])[..|prefix|] == prefix;
  }

  /** flattenTabs. The walk terminates because a child's id exceeds its parent's (Ranked). */
  method FlattenTabs(nodes: map<TabId, TabNode>, rootIds: seq<TabId>) returns (ordered: seq<TabNode>)
    requires Ranked(nodes)
    ensures ordered == Flattened(nodes, rootIds)
  {
    ordered := [];
    var i := 0;
    while i < |rootIds|
      invariant 0 <= i <= |rootIds|
      invariant ordered == Flattened(nodes, rootIds[..i])
    {
      assert rootIds[..i + 1][..i] == rootIds[..i];
      ordered := VisitInto(nodes, rootIds[i], ordered);
      i := i + 1;
    }
    assert rootIds[..|rootIds|] == rootIds;
  }

  // ---------------------------------------------------------------------------
  // On a well-formed forest every node is listed exactly once.

  /** Where every listed child is stored, the walk visits exactly the ids closeSubtree collects. */
  lemma {:induction false} VisitIsCollect(s: TabState, id: TabId)
    requires WellFormed(s) && id in s.nodes
    ensures Ids(Visit(s.nodes, id)) == Collect(s.nodes, id)
    decreases AtLeast(s.nodes, id), 0
  {
    var n := s.nodes;
    assert id in AtLeast(n, id) - Above(n, id);
    VisitAllIsCollectAll(s, n[id].children, id);
    IdsConcat([n[id]], VisitAll(n, n[id].children, id));
  }

  lemma {:induction false} VisitAllIsCollectAll(s: TabState, ids: seq<TabId>, above: TabId)
    requires WellFormed(s) && (forall c :: c in ids ==> c > above && c in s.nodes)
    ensures Ids(VisitAll(s.nodes, ids, above)) == CollectAll(s.nodes, ids, above)
    decreases Above(s.nodes, above), 1, |ids|
  {
    var n := s.nodes;
    if |ids| > 0 {
      var last := ids[|ids| - 1];
      var prefix := ids[..|ids| - 1];
      assert last in ids;
      assert forall c :: c in prefix ==> c in ids;
      assert AtLeast(n, last) <= Above(n, above);
      VisitAllIsCollectAll(s, prefix, above);
      VisitIsCollect(s, last);
      IdsConcat(VisitAll(n, prefix, above), Visit(n, last));
    }
  }

  /** Every stored node descends from some root. */
  lemma {:induction false} RootAncestor(s: TabState, k: TabId)
    requires WellFormed(s) && k in s.nodes
    ensures exists r :: r in s.rootIds && IsAncestor(s.nodes, r, k)
    decreases k
  {
    var n := s.nodes;
    if n[k].parentId.None? {
      assert k in s.rootIds && IsAncestor(n, k, k);
    } else {
      var p := n[k].parentId.value;
      assert p in n && k in n[p].children;
      RootAncestor(s, p);
      var r :| r in s.rootIds && IsAncestor(n, r, p);
      assert IsAncestor(n, r, k);
    }
  }

  /** The walk of some of the roots lists the walks of those roots. */
  lemma {:induction false} FlattenedMembers(n: map<TabId, TabNode>, roots: seq<TabId>, k: TabId)
    requires Ranked(n)
    ensures k in Ids(Flattened(n, roots)) <==> exists j :: 0 <= j < |roots| && k in Ids(Visit(n, roots[j]))
    decreases |roots|
  {
    if |roots| > 0 {
      var prefix := roots[..|roots| - 1];
      var last := roots[|roots| - 1];
      FlattenedMembers(n, prefix, k);
      IdsConcat(Flattened(n, prefix), Visit(n, last));
      if exists j :: 0 <= j < |roots| && k in Ids(Visit(n, roots[j])) {
        var j :| 0 <= j < |roots| && k in Ids(Visit(n, roots[j]));
        if j < |roots| - 1 { assert prefix[j] == roots[j]; }
      }
      if exists j :: 0 <= j < |prefix| && k in Ids(Visit(n, prefix[j])) {
        var j :| 0 <= j < |prefix| && k in Ids(Visit(n, prefix[j]));
        assert roots[j] == prefix[j];
      }
    }
  }

  lemma {:induction false} FlattenedNoDup(s: TabState, roots: seq<TabId>)
    requires WellFormed(s) && NoDup(roots) && forall r :: r in roots ==> r in s.rootIds
    ensures NoDup(Ids(Flattened(s.nodes, roots)))
    decreases |roots|
  {
    var n := s.nodes;
    if |roots| > 0 {
      var prefix := roots[..|roots| - 1];
      var last := roots[|roots| - 1];
      assert forall r :: r in prefix ==> r in roots;
      assert last in roots && last !in prefix;
      FlattenedNoDup(s, prefix);
      VisitIsCollect(s, last);
      CollectNoDup(s, last);
      forall e | e in Ids(Flattened(n, prefix)) ensures e !in Collect(n, last) {
        FlattenedMembers(n, prefix, e);
        var j :| 0 <= j < |prefix| && e in Ids(Visit(n, prefix[j]));
        assert prefix[j] in roots && prefix[j] != last;
        VisitIsCollect(s, prefix[j]);
        SiblingSubtreesDisjoint(s, prefix[j], last, e);
      }
      IdsConcat(Flattened(n, prefix), Visit(n, last));
      NoDupConcat(Ids(Flattened(n, prefix)), Collect(n, last));
    }
  }

  /** The walk lists only stored nodes, each under its own id. */
  lemma {:induction false} FlattenedStored(n: map<TabId, TabNode>, roots: seq<TabId>)
    requires Ranked(n) && Keyed(n)
    ensures forall x :: x in Flattened(n, roots) ==> x.id in n && n[x.id] == x
    decreases |roots|
  {
    if |roots| > 0 {
      FlattenedStored(n, roots[..|roots| - 1]);
      VisitStored(n, roots[|roots| - 1]);
    }
  }

  lemma {:induction false} VisitStored(n: map<TabId, TabNode>, id: TabId)
    requires Ranked(n) && Keyed(n)
    ensures forall x :: x in Visit(n, id) ==> x.id in n && n[x.id] == x
    decreases AtLeast(n, id), 0
  {
    if id in n {
      assert id in AtLeast(n, id) - Above(n, id);
      VisitAllStored(n, n[id].children, id);
    }
  }

  lemma {:induction false} VisitAllStored(n: map<TabId, TabNode>, ids: seq<TabId>, above: TabId)
    requires Ranked(n) && Keyed(n) && forall c :: c in ids ==> c > above
    ensures forall x :: x in VisitAll(n, ids, above) ==> x.id in n && n[x.id] == x
    decreases Above(n, above), 1, |ids|
  {
    if |ids| > 0 {
      var last := ids[|ids| - 1];
      var prefix := ids[..|ids| - 1];
      assert last in ids;
      assert forall c :: c in prefix ==> c in ids;
      assert AtLeast(n, last) <= Above(n, above);
      VisitAllStored(n, prefix, above);
      VisitStored(n, last);
    }
  }

  /** On a well-formed forest flattenTabs lists every stored node, and each exactly once. */
  lemma FlattenListsEachNodeOnce(s: TabState)
    requires WellFormed(s)
    ensures var r := Flattened(s.nodes, s.rootIds);
      && NoDup(Ids(r))
      && (forall k :: k in s.nodes <==> k in Ids(r))
      && (forall x :: x in r ==> x.id in s.nodes && s.nodes[x.id] == x)
  {
    var n := s.nodes;
    FlattenedNoDup(s, s.rootIds);
    FlattenedStored(n, s.rootIds);
    forall k ensures k in n <==> k in Ids(Flattened(n, s.rootIds)) {
      FlattenedMembers(n, s.rootIds, k);
      if k in n {
        RootAncestor(s, k);
        var r :| r in s.rootIds && IsAncestor(n, r, k);
        var j :| 0 <= j < |s.rootIds| && s.rootIds[j] == r;
        CollectIsSubtree(s, r, k);
        VisitIsCollect(s, r);
      }
      if exists j :: 0 <= j < |s.rootIds| && k in Ids(Visit(n, s.rootIds[j])) {
        var j :| 0 <= j < |s.rootIds| && k in Ids(Visit(n, s.rootIds[j]));
        VisitIsCollect(s, s.rootIds[j]);
        CollectIsSubtree(s, s.rootIds[j], k);
      }
    }
  }
}

/** Structure of the pre-order collection and of ancestry in the tab forest. */
module Forest {
  import opened Tabs
  import opened TabTree

  /** `a` is `e` or one of its ancestors along parentId links (each step goes to a smaller id). */
  ghost predicate IsAncestor(n: map<TabId, TabNode>, a: TabId, e: TabId)
    decreases e
  {
    a == e
    || (e in n && n[e].parentId.Some? && n[e].parentId.value < e && IsAncestor(n, a, n[e].parentId.value))
  }

  lemma {:induction false} NoDupConcat(a: seq<TabId>, b: seq<TabId>)
    requires NoDup(a) && NoDup(b)
    requires forall x :: x in a ==> x !in b
    ensures NoDup(a + b)
  {
    forall i, j | 0 <= i < j < |a + b| ensures (a + b)[i] != (a + b)[j] {
      if i < |a| && j >= |a| {
        assert (a + b)[i] in a && (a + b)[j] == b[j - |a|];
      }
    }
  }

  // ---------------------------------------------------------------------------
  // Collect, structurally.

  lemma {:induction false} CollectAllMember(n: map<TabId, TabNode>, ids: seq<TabId>, above: TabId, e: TabId)
    requires Ranked(n) && forall c :: c in ids ==> c > above
    requires e in CollectAll(n, ids, above)
    ensures exists j :: 0 <= j < |ids| && e in Collect(n, ids[j])
    decreases |ids|
  {
    var prefix := ids[..|ids| - 1];
    assert forall c :: c in prefix ==> c in ids;
    if e in CollectAll(n, prefix, above) {
      CollectAllMember(n, prefix, above, e);
      var j :| 0 <= j < |prefix| && e in Collect(n, prefix[j]);
      assert prefix[j] == ids[j];
    } else {
      assert e in Collect(n, ids[|ids| - 1]);
    }
  }

  lemma {:induction false} CollectAllIncludes(n: map<TabId, TabNode>, ids: seq<TabId>, above: TabId, j: nat)
    requires Ranked(n) && forall c :: c in ids ==> c > above
    requires j < |ids|
    ensures forall e :: e in Collect(n, ids[j]) ==> e in CollectAll(n, ids, above)
    decreases |ids|
  {
    var prefix := ids[..|ids| - 1];
    assert forall c :: c in prefix ==> c in ids;
    if j < |ids| - 1 {
      CollectAllIncludes(n, prefix, above, j);
      assert prefix[j] == ids[j];
    }
  }

  lemma AtLeastShrinks(n: map<TabId, TabNode>, id: TabId, c: TabId)
    requires id in n && c > id
    ensures AtLeast(n, c) < AtLeast(n, id)
  {
    assert id in AtLeast(n, id) && id !in AtLeast(n, c);
  }

  /** The collection is closed under the children of the nodes it contains. */
  lemma {:induction false} CollectClosed(n: map<TabId, TabNode>, id: TabId, x: TabId, c: TabId)
    requires Ranked(n) && x in Collect(n, id) && x in n && c in n[x].children
    ensures c in Collect(n, id)
    decreases AtLeast(n, id)
  {
    assert id in n;
    var kids := n[id].children;
    if x == id {
      var j :| 0 <= j < |kids| && kids[j] == c;
      CollectAllIncludes(n, kids, id, j);
    } else {
      CollectAllMember(n, kids, id, x);
      var j :| 0 <= j < |kids| && x in Collect(n, kids[j]);
      assert kids[j] in n[id].children;
      AtLeastShrinks(n, id, kids[j]);
      CollectClosed(n, kids[j], x, c);
      CollectAllIncludes(n, kids, id, j);
    }
  }

  /** Everything collected besides id itself was reached through the children of a collected node. */
  lemma {:induction false} CollectParent(n: map<TabId, TabNode>, id: TabId, e: TabId)
    requires Ranked(n) && e in Collect(n, id) && e != id
    ensures exists x :: x in Collect(n, id) && x in n && e in n[x].children
    decreases AtLeast(n, id)
  {
    assert id in n;
    var kids := n[id].children;
    CollectAllMember(n, kids, id, e);
    var j :| 0 <= j < |kids| && e in Collect(n, kids[j]);
    CollectAllIncludes(n, kids, id, j);
    if e == kids[j] {
      assert id in Collect(n, id) && e in n[id].children;
    } else {
      assert kids[j] in n[id].children;
      AtLeastShrinks(n, id, kids[j]);
      CollectParent(n, kids[j], e);
      var x :| x in Collect(n, kids[j]) && x in n && e in n[x].children;
      assert x in Collect(n, id);
    }
  }

  // ---------------------------------------------------------------------------
  // Ancestry.

  lemma {:induction false} AncestorBelow(n: map<TabId, TabNode>, a: TabId, e: TabId)
    requires IsAncestor(n, a, e)
    ensures a <= e
    decreases e
  {
    if a != e {
      AncestorBelow(n, a, n[e].parentId.value);
    }
  }

  /** The ancestors of a node form a chain. */
  lemma {:induction false} AncestorsLinear(n: map<TabId, TabNode>, a: TabId, b: TabId, e: TabId)
    requires IsAncestor(n, a, e) && IsAncestor(n, b, e)
    ensures IsAncestor(n, a, b) || IsAncestor(n, b, a)
    decreases e
  {
    if a != e && b != e {
      AncestorsLinear(n, a, b, n[e].parentId.value);
    }
  }

  /** On a well-formed forest, closeSubtree's collection of id is exactly id and its descendants. */
  lemma {:induction false} CollectIsSubtree(s: TabState, id: TabId, e: TabId)
    requires WellFormed(s) && id in s.nodes
    ensures e in Collect(s.nodes, id) <==> e in s.nodes && IsAncestor(s.nodes, id, e)
    decreases e
  {
    var n := s.nodes;
    if e in Collect(n, id) && e != id {
      CollectParent(n, id, e);
      var x :| x in Collect(n, id) && x in n && e in n[x].children;
      assert e in n && n[e].parentId == Some(x) && x < e;
      CollectIsSubtree(s, id, x);
    }
    if e in n && IsAncestor(n, id, e) && e != id {
      var q := n[e].parentId.value;
      assert q in n && e in n[q].children;
      CollectIsSubtree(s, id, q);
      CollectClosed(n, id, q, e);
    }
  }

  /** Two distinct siblings (or two distinct roots) have disjoint subtrees. */
  lemma SiblingSubtreesDisjoint(s: TabState, a: TabId, b: TabId, e: TabId)
    requires WellFormed(s) && a in s.nodes && b in s.nodes && a != b
    requires s.nodes[a].parentId == s.nodes[b].parentId
    requires e in Collect(s.nodes, a)
    ensures e !in Collect(s.nodes, b)
  {
    var n := s.nodes;
    if e in Collect(n, b) {
      CollectIsSubtree(s, a, e);
      CollectIsSubtree(s, b, e);
      AncestorsLinear(n, a, b, e);
      if IsAncestor(n, a, b) {
        AncestorBelow(n, a, n[b].parentId.value);
      } else {
        AncestorBelow(n, b, n[a].parentId.value);
      }
    }
  }

  /** Siblings: the ids share one parent link (all None for roots). */
  ghost predicate Siblings(n: map<TabId, TabNode>, ids: seq<TabId>) {
    (forall c :: c in ids ==> c in n)
    && forall a, b :: a in ids && b in ids ==> n[a].parentId == n[b].parentId
  }

  lemma {:induction false} CollectAllNoDup(s: TabState, ids: seq<TabId>, above: TabId)
    requires WellFormed(s) && NoDup(ids) && Siblings(s.nodes, ids)
    requires forall c :: c in ids ==> c > above
    ensures NoDup(CollectAll(s.nodes, ids, above))
    decreases Above(s.nodes, above), 1, |ids|
  {
    var n := s.nodes;
    if |ids| > 0 {
      var prefix := ids[..|ids| - 1];
      var last := ids[|ids| - 1];
      assert forall c :: c in prefix ==> c in ids;
      assert NoDup(prefix);
      CollectAllNoDup(s, prefix, above);
      assert last in ids;
      assert AtLeast(n, last) <= Above(n, above);
      CollectNoDup(s, last);
      forall e | e in CollectAll(n, prefix, above) ensures e !in Collect(n, last) {
        CollectAllMember(n, prefix, above, e);
        var j :| 0 <= j < |prefix| && e in Collect(n, prefix[j]);
        assert prefix[j] == ids[j] && ids[j] != last;
        SiblingSubtreesDisjoint(s, prefix[j], last, e);
      }
      NoDupConcat(CollectAll(n, prefix, above), Collect(n, last));
    }
  }

  /** On a well-formed forest the collection lists each id once. */
  lemma {:induction false} CollectNoDup(s: TabState, id: TabId)
    requires WellFormed(s) && id in s.nodes
    ensures NoDup(Collect(s.nodes, id))
    decreases AtLeast(s.nodes, id), 0
  {
    var n := s.nodes;
    var kids := n[id].children;
    assert id in AtLeast(n, id) - Above(n, id);
    forall c | c in kids ensures c in n && n[c].parentId == Some(id) && c > id { }
    CollectAllNoDup(s, kids, id);
    NoDupConcat([id], CollectAll(n, kids, id));
  }

  /** On a well-formed forest the collection of id is closed downwards (every child of a
      collected node is collected) and upwards below id (a collected node other than id has a
      collected parent). */
  lemma CollectSubtreeClosed(s: TabState, id: TabId)
    requires WellFormed(s) && id in s.nodes
    ensures forall k, c :: k in s.nodes && c in s.nodes[k].children && k in Collect(s.nodes, id) ==> c in Collect(s.nodes, id)
    ensures forall k, c :: k in s.nodes && c in s.nodes[k].children && c in Collect(s.nodes, id) && c != id ==> k in Collect(s.nodes, id)
  {
    var n := s.nodes;
    forall k, c | k in n && c in n[k].children && k in Collect(n, id) ensures c in Collect(n, id) {
      CollectClosed(n, id, k, c);
    }
    forall k, c | k in n && c in n[k].children && c in Collect(n, id) && c != id ensures k in Collect(n, id) {
      CollectIsSubtree(s, id, c);
      assert n[c].parentId == Some(k);
      CollectIsSubtree(s, id, k);
    }
  }
}

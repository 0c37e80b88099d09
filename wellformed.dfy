/** On a well-formed forest every store operation leaves a well-formed forest: createTab under no
    parent or an existing one, closeTab and closeSubtree of any id, and the field updates. */
module WellFormedness {
  import opened Tabs
  import opened TabTree
  import opened Forest
  import opened TreeInvariants

  /** b has a's ids, parent links and children lists (titles, urls and flags may differ). */
  ghost predicate SameLinks(a: map<TabId, TabNode>, b: map<TabId, TabNode>) {
    && a.Keys == b.Keys
    && forall k :: k in a ==> b[k].id == a[k].id && b[k].parentId == a[k].parentId && b[k].children == a[k].children
  }

  /** The link structure of a forest: everything WellFormed asks except the active flags and the
      non-empty root list. */
  ghost predicate Linked(s: TabState) {
    Keyed(s.nodes) && Ranked(s.nodes) && RootsListed(s) && ChildrenListed(s.nodes) && ParentsLinked(s)
  }

  /** A linked forest with a root and exactly one active node is well formed. */
  lemma LinkedWellFormed(t: TabState)
    requires Linked(t) && |t.rootIds| > 0 && ExactlyOneActive(t)
    ensures WellFormed(t)
  {
  }

  lemma SameLinksChildren(a: map<TabId, TabNode>, b: map<TabId, TabNode>)
    requires SameLinks(a, b) && Keyed(a) && Ranked(a) && ChildrenListed(a)
    ensures Keyed(b) && Ranked(b) && ChildrenListed(b)
  {
    forall k, c | k in b && c in b[k].children ensures c in b && b[c].parentId == Some(k) {
      assert c in a[k].children;
    }
  }

  lemma SameLinksParents(s: TabState, t: TabState)
    requires SameLinks(s.nodes, t.nodes) && t.rootIds == s.rootIds && RootsListed(s) && ParentsLinked(s)
    ensures RootsListed(t) && ParentsLinked(t)
  {
    forall k | k in t.nodes && t.nodes[k].parentId.Some?
      ensures t.nodes[k].parentId.value in t.nodes && k in t.nodes[t.nodes[k].parentId.value].children
    {
      assert s.nodes[k].parentId == t.nodes[k].parentId;
    }
  }

  /** A step that keeps the links and leaves exactly one active node keeps the forest well formed. */
  lemma SameLinksWellFormed(s: TabState, t: TabState)
    requires Linked(s) && |s.rootIds| > 0
    requires SameLinks(s.nodes, t.nodes) && t.rootIds == s.rootIds && ExactlyOneActive(t)
    ensures WellFormed(t)
  {
    SameLinksChildren(s.nodes, t.nodes);
    SameLinksParents(s, t);
  }

  // ---------------------------------------------------------------------------
  // Field updates.

  lemma ActivateTabWellFormed(s: TabState, id: TabId)
    requires WellFormed(s)
    ensures WellFormed(ActivateTab(s, id))
  {
    var t := ActivateTab(s, id);
    assert SameLinks(s.nodes, t.nodes);
    SameLinksWellFormed(s, t);
  }

  lemma UpdateTabMetadataWellFormed(s: TabState, id: TabId, title: Option<string>, url: Option<string>)
    requires WellFormed(s)
    ensures WellFormed(UpdateTabMetadata(s, id, title, url))
  {
    var t := UpdateTabMetadata(s, id, title, url);
    assert SameLinks(s.nodes, t.nodes);
    SameLinksWellFormed(s, t);
  }

  lemma UpdateTabUrlWellFormed(s: TabState, id: TabId, url: string)
    requires WellFormed(s)
    ensures WellFormed(UpdateTabUrl(s, id, url))
  {
    var t := UpdateTabUrl(s, id, url);
    assert SameLinks(s.nodes, t.nodes);
    SameLinksWellFormed(s, t);
  }

  lemma ToggleExpandedWellFormed(s: TabState, id: TabId)
    requires WellFormed(s)
    ensures WellFormed(ToggleExpanded(s, id))
  {
    var t := ToggleExpanded(s, id);
    assert SameLinks(s.nodes, t.nodes);
    SameLinksWellFormed(s, t);
  }

  /** ensureRoot does nothing to a well-formed forest. */
  lemma EnsureRootWellFormed(s: TabState, freshId: TabId)
    requires WellFormed(s)
    ensures EnsureRoot(s, freshId) == s
  {
  }

  // ---------------------------------------------------------------------------
  // createTab

  /** Appending a new id to one children list keeps every list free of repeats. */
  lemma AddLeafNoDup(a: map<TabId, TabNode>, b: map<TabId, TabNode>, newId: TabId, p: Option<TabId>)
    requires forall k :: k in a ==> NoDup(a[k].children)
    requires forall k, c :: k in a && c in a[k].children ==> c in a
    requires newId !in a && b.Keys == a.Keys + {newId} && b[newId].children == []
    requires forall k :: k in a && Some(k) != p ==> b[k].children == a[k].children
    requires p.Some? ==> p.value in a && b[p.value].children == a[p.value].children + [newId]
    ensures forall k :: k in b ==> NoDup(b[k].children)
  {
    if p.Some? {
      assert newId !in a[p.value].children;
      assert NoDup(a[p.value].children + [newId]);
    }
  }

  /** Adding a childless node newId (under p when p is given) keeps the children lists sound. */
  lemma AddLeafChildren(a: map<TabId, TabNode>, b: map<TabId, TabNode>, newId: TabId, p: Option<TabId>)
    requires Keyed(a) && Ranked(a) && ChildrenListed(a) && newId !in a
    requires p.Some? ==> p.value in a && p.value < newId
    requires b.Keys == a.Keys + {newId}
    requires b[newId].id == newId && b[newId].parentId == p && b[newId].children == []
    requires forall k :: k in a ==> b[k].id == a[k].id && b[k].parentId == a[k].parentId
    requires forall k :: k in a && Some(k) != p ==> b[k].children == a[k].children
    requires p.Some? ==> b[p.value].children == a[p.value].children + [newId]
    ensures Keyed(b) && Ranked(b) && ChildrenListed(b)
  {
    AddLeafNoDup(a, b, newId, p);
    forall k, c | k in b && c in b[k].children ensures c > k && c in b && b[c].parentId == Some(k) {
      if Some(k) != p || c != newId {
        assert c in a[k].children;
      }
    }
  }

  /** Adding a node newId, listed under its existing parent or appended to the roots, keeps the
      parent links sound. */
  lemma AddLeafParents(s: TabState, t: TabState, newId: TabId, p: Option<TabId>)
    requires ParentsLinked(s) && RootsListed(s) && newId !in s.nodes
    requires t.nodes.Keys == s.nodes.Keys + {newId} && t.nodes[newId].parentId == p
    requires forall k :: k in s.nodes ==> t.nodes[k].parentId == s.nodes[k].parentId
    requires forall k :: k in s.nodes && Some(k) != p ==> t.nodes[k].children == s.nodes[k].children
    requires p.Some? ==> p.value in s.nodes && t.rootIds == s.rootIds
    requires p.Some? ==> t.nodes[p.value].children == s.nodes[p.value].children + [newId]
    requires p.None? ==> t.rootIds == s.rootIds + [newId]
    ensures RootsListed(t) && ParentsLinked(t)
  {
    if p.None? {
      assert newId !in s.rootIds;
      assert NoDup(s.rootIds + [newId]);
    }
    forall k | k in t.nodes && t.nodes[k].parentId.Some?
      ensures t.nodes[k].parentId.value in t.nodes && k in t.nodes[t.nodes[k].parentId.value].children
    {
      if k != newId {
        var q := s.nodes[k].parentId.value;
        assert k in s.nodes[q].children;
      }
    }
  }

  /** What createTab does to the links: the new childless node, pointing at parentId, is added
      and appended to its existing parent's children or else to rootIds; every other node keeps
      its parent and its children. */
  lemma CreateTabShape(s: TabState, newId: TabId, parentId: Option<TabId>, url: string, title: Option<string>)
    requires newId !in s.nodes && parentId != Some(newId)
    ensures var t := CreateTab(s, newId, parentId, url, title);
      && t.nodes.Keys == s.nodes.Keys + {newId}
      && t.nodes[newId].id == newId && t.nodes[newId].parentId == parentId && t.nodes[newId].children == []
      && (forall k :: k in s.nodes ==> t.nodes[k].id == s.nodes[k].id && t.nodes[k].parentId == s.nodes[k].parentId)
      && (forall k :: k in s.nodes && Some(k) != parentId ==> t.nodes[k].children == s.nodes[k].children)
      && (parentId.Some? && parentId.value in s.nodes ==>
            t.nodes[parentId.value].children == s.nodes[parentId.value].children + [newId]
            && t.rootIds == s.rootIds)
      && (!(parentId.Some? && parentId.value in s.nodes) ==> t.rootIds == s.rootIds + [newId])
  {
  }

  lemma CreateTabLinks(s: TabState, newId: TabId, parentId: Option<TabId>, url: string, title: Option<string>)
    requires Linked(s) && Issued(s.nodes, newId)
    requires parentId.None? || parentId.value in s.nodes
    ensures Linked(CreateTab(s, newId, parentId, url, title))
  {
    var t := CreateTab(s, newId, parentId, url, title);
    assert newId !in s.nodes;
    CreateTabShape(s, newId, parentId, url, title);
    AddLeafChildren(s.nodes, t.nodes, newId, parentId);
    AddLeafParents(s, t, newId, parentId);
  }

  /** createTab keeps the forest well formed when the parent exists or there is none. */
  lemma CreateTabWellFormed(s: TabState, newId: TabId, parentId: Option<TabId>, url: string, title: Option<string>)
    requires WellFormed(s) && Issued(s.nodes, newId)
    requires parentId.None? || parentId.value in s.nodes
    ensures WellFormed(CreateTab(s, newId, parentId, url, title))
  {
    assert newId !in s.nodes;
    CreateTabLinks(s, newId, parentId, url, title);
    CreateTabActive(s, newId, parentId, url, title);
    LinkedWellFormed(CreateTab(s, newId, parentId, url, title));
  }

  /** The new tab is the one active node. */
  lemma CreateTabActive(s: TabState, newId: TabId, parentId: Option<TabId>, url: string, title: Option<string>)
    requires ExactlyOneActive(s) && newId !in s.nodes
    ensures ExactlyOneActive(CreateTab(s, newId, parentId, url, title))
  {
  }

  // ---------------------------------------------------------------------------
  // closeTab

  /** closeTab's unlinking step for a node with an existing parent p: the node leaves the map and
      p's children list gets the node's children in its place, with p forced expanded. */
  lemma UnlinkUnderParent(s: TabState, id: TabId, p: TabId)
    requires id in s.nodes && s.nodes[id].parentId == Some(p) && p in s.nodes && p != id
    ensures var u := Unlink(s, id);
      var pc := s.nodes[p].children;
      && u.nodes.Keys == s.nodes.Keys - {id} && u.rootIds == s.rootIds
      && (forall k :: k in u.nodes && k != p ==> u.nodes[k] == s.nodes[k])
      && u.nodes[p] == s.nodes[p].(children := if IndexOf(pc, id) != -1 then Splice(pc, IndexOf(pc, id), s.nodes[id].children) else pc,
                                   isExpanded := true)
  {
  }

  /** closeTab's unlinking step for a root: the node leaves the map and rootIds gets its children in
      its place. */
  lemma UnlinkAtRoot(s: TabState, id: TabId)
    requires id in s.nodes && s.nodes[id].parentId == None
    ensures var u := Unlink(s, id);
      && u.nodes == s.nodes - {id}
      && u.rootIds == if IndexOf(s.rootIds, id) != -1 then Splice(s.rootIds, IndexOf(s.rootIds, id), s.nodes[id].children) else s.rootIds
  {
  }

  /** After unlinking, closeTab only rewrites the children's parent links and the active flags. */
  lemma CloseTabAfterUnlink(s: TabState, id: TabId, freshId: TabId)
    requires id in s.nodes
    ensures var node := s.nodes[id];
      var u := Unlink(s, id);
      var r := CloseTab(s, id, freshId);
      var t := r.state;
      !r.reset ==>
        && t.nodes.Keys == u.nodes.Keys && t.rootIds == u.rootIds
        && forall k :: k in t.nodes ==>
             t.nodes[k] == u.nodes[k].(parentId := if k in node.children then node.parentId else u.nodes[k].parentId,
                                       isActive := t.nodes[k].isActive)
  {
  }

  /** Removing id from under its parent p and splicing its children in its place keeps every
      children list free of repeats. */
  lemma SpliceChildrenUnique(a: map<TabId, TabNode>, b: map<TabId, TabNode>, id: TabId, p: TabId)
    requires ChildrenUnique(a) && id in a && p in a && id in a[p].children
    requires forall x :: x in a[id].children ==> x !in a[p].children
    requires b.Keys <= a.Keys
    requires forall k :: k in b && k != p ==> b[k].children == a[k].children
    requires p in b ==> b[p].children == Splice(a[p].children, IndexOf(a[p].children, id), a[id].children)
    ensures ChildrenUnique(b)
  {
    SpliceNoDup(a[p].children, IndexOf(a[p].children, id), a[id].children);
  }

  /** ... keeps the children lists pointing back, and ranked. */
  lemma SpliceChildrenPointBack(a: map<TabId, TabNode>, b: map<TabId, TabNode>, id: TabId, p: TabId)
    requires Ranked(a) && ChildrenPointBack(a)
    requires id in a && p in a && p != id && id in a[p].children
    requires b.Keys == a.Keys - {id}
    requires forall k :: k in b ==> b[k].parentId == if k in a[id].children then Some(p) else a[k].parentId
    requires forall k :: k in b && k != p ==> b[k].children == a[k].children
    requires forall x :: x in b[p].children <==> x in a[id].children || (x in a[p].children && x != id)
    ensures Ranked(b) && ChildrenPointBack(b)
  {
    var kids := a[id].children;
    assert forall x :: x in kids ==> x in a && a[x].parentId == Some(id) && x > id;
    forall k, c | k in b && c in b[k].children
      ensures c > k && c in b && b[c].parentId == Some(k)
    {
      if k != p {
        assert c in a[k].children && c != id;
      }
    }
  }

  /** ... and keeps the parent links sound. */
  lemma SpliceChildrenParents(s: TabState, t: TabState, id: TabId, p: TabId)
    requires RootsListed(s) && ParentsLinked(s)
    requires id in s.nodes && p in s.nodes && p != id && s.nodes[id].parentId == Some(p)
    requires forall x :: x in s.nodes[id].children ==> x in s.nodes && s.nodes[x].parentId == Some(id)
    requires t.nodes.Keys == s.nodes.Keys - {id} && t.rootIds == s.rootIds
    requires forall k :: k in t.nodes ==>
      t.nodes[k].parentId == if k in s.nodes[id].children then Some(p) else s.nodes[k].parentId
    requires forall k :: k in t.nodes && k != p ==> t.nodes[k].children == s.nodes[k].children
    requires forall x :: x in t.nodes[p].children <==> x in s.nodes[id].children || (x in s.nodes[p].children && x != id)
    ensures RootsListed(t) && ParentsLinked(t)
  {
    forall k | k in t.nodes && t.nodes[k].parentId.Some?
      ensures t.nodes[k].parentId.value in t.nodes && k in t.nodes[t.nodes[k].parentId.value].children
    {
      if k !in s.nodes[id].children {
        var q := s.nodes[k].parentId.value;
        assert k in s.nodes[q].children;
      }
    }
  }

  /** Removing the root id and splicing its children into rootIds keeps the children lists sound. */
  lemma RootSpliceChildren(a: map<TabId, TabNode>, b: map<TabId, TabNode>, id: TabId)
    requires Ranked(a) && ChildrenPointBack(a) && ChildrenUnique(a)
    requires id in a && a[id].parentId == None
    requires b.Keys == a.Keys - {id}
    requires forall k :: k in b ==> b[k].parentId == if k in a[id].children then None else a[k].parentId
    requires forall k :: k in b ==> b[k].children == a[k].children
    ensures Ranked(b) && ChildrenPointBack(b) && ChildrenUnique(b)
  {
    assert forall x :: x in a[id].children ==> a[x].parentId == Some(id);
    forall k, c | k in b && c in b[k].children
      ensures c > k && c in b && b[c].parentId == Some(k)
    {
      assert c in a[k].children && c != id;
    }
  }

  /** ... and keeps the parent links sound. */
  lemma RootSpliceParents(s: TabState, t: TabState, id: TabId)
    requires RootsListed(s) && ParentsLinked(s)
    requires id in s.nodes && s.nodes[id].parentId == None
    requires forall x :: x in s.nodes[id].children ==> x in s.nodes && s.nodes[x].parentId == Some(id)
    requires NoDup(s.nodes[id].children)
    requires t.nodes.Keys == s.nodes.Keys - {id}
    requires forall k :: k in t.nodes ==>
      t.nodes[k].parentId == if k in s.nodes[id].children then None else s.nodes[k].parentId
    requires forall k :: k in t.nodes ==> t.nodes[k].children == s.nodes[k].children
    requires NoDup(t.rootIds)
    requires forall x :: x in t.rootIds <==> x in s.nodes[id].children || (x in s.rootIds && x != id)
    ensures RootsListed(t) && ParentsLinked(t)
  {
    forall k | k in t.nodes && t.nodes[k].parentId.Some?
      ensures t.nodes[k].parentId.value in t.nodes && k in t.nodes[t.nodes[k].parentId.value].children
    {
      var q := s.nodes[k].parentId.value;
      assert k in s.nodes[q].children;
    }
  }

  /** MoveActive to a successor that exists leaves exactly one active node, when only the previous
      pointer's node was flagged. */
  lemma MoveActiveExactlyOne(n: map<TabId, TabNode>, previous: Option<TabId>, next: Option<TabId>, roots: seq<TabId>)
    requires forall k :: k in n && n[k].isActive ==> previous == Some(k)
    requires next.Some? && next.value in n
    ensures ExactlyOneActive(TabState(MoveActive(n, previous, next), roots, next))
  {
  }

  lemma {:induction false} CloseTabActive(s: TabState, id: TabId, freshId: TabId)
    requires Keyed(s.nodes) && Ranked(s.nodes) && ExactlyOneActive(s) && id in s.nodes
    requires var r := CloseTab(s, id, freshId);
      !r.reset && r.state.activeTabId.Some? && r.state.activeTabId.value in r.state.nodes
    ensures ExactlyOneActive(CloseTab(s, id, freshId).state)
  {
    var node := s.nodes[id];
    var u := Unlink(s, id);
    UnlinkKeeps(s, id);
    var nodes := Reparent(u.nodes, node.children, node.parentId);
    var next := CloseSuccessor(s, id, node, u.rootIds);
    MoveActiveExactlyOne(nodes, s.activeTabId, next, u.rootIds);
  }

  /** closeTab of a node under an existing parent p, in terms of the old forest. */
  lemma CloseTabUnderParentShape(s: TabState, id: TabId, p: TabId, freshId: TabId)
    requires id in s.nodes && s.nodes[id].parentId == Some(p) && p in s.nodes && p != id
    requires id in s.nodes[p].children && NoDup(s.nodes[p].children)
    ensures var r := CloseTab(s, id, freshId);
      var t := r.state;
      var kids := s.nodes[id].children;
      !r.reset ==>
        && t.nodes.Keys == s.nodes.Keys - {id} && t.rootIds == s.rootIds
        && (forall k :: k in t.nodes ==> t.nodes[k].id == s.nodes[k].id)
        && (forall k :: k in t.nodes ==> t.nodes[k].parentId == if k in kids then Some(p) else s.nodes[k].parentId)
        && (forall k :: k in t.nodes && k != p ==> t.nodes[k].children == s.nodes[k].children)
        && t.nodes[p].children == Splice(s.nodes[p].children, IndexOf(s.nodes[p].children, id), kids)
        && (forall x :: x in t.nodes[p].children <==> x in kids || (x in s.nodes[p].children && x != id))
  {
    var pc := s.nodes[p].children;
    var kids := s.nodes[id].children;
    UnlinkUnderParent(s, id, p);
    CloseTabAfterUnlink(s, id, freshId);
    SpliceMembers(pc, IndexOf(pc, id), kids);
    var r := CloseTab(s, id, freshId);
    if !r.reset {
      var t := r.state;
      var u := Unlink(s, id);
      forall k | k in t.nodes
        ensures t.nodes[k].id == s.nodes[k].id
        ensures t.nodes[k].parentId == if k in kids then Some(p) else s.nodes[k].parentId
        ensures k != p ==> t.nodes[k].children == s.nodes[k].children
      {
        assert t.nodes[k].id == u.nodes[k].id && t.nodes[k].children == u.nodes[k].children;
      }
      assert t.nodes[p].children == u.nodes[p].children;
    }
  }

  /** The children-list facts of closeTab under a parent, on abstract before and after states. */
  lemma SpliceLinksChildren(s: TabState, t: TabState, id: TabId, p: TabId)
    requires Keyed(s.nodes) && Ranked(s.nodes) && ChildrenListed(s.nodes)
    requires id in s.nodes && s.nodes[id].parentId == Some(p) && p in s.nodes && p != id && id in s.nodes[p].children
    requires t.nodes.Keys == s.nodes.Keys - {id} && t.rootIds == s.rootIds
    requires forall k :: k in t.nodes ==> t.nodes[k].id == s.nodes[k].id
    requires forall k :: k in t.nodes ==> t.nodes[k].parentId == if k in s.nodes[id].children then Some(p) else s.nodes[k].parentId
    requires forall k :: k in t.nodes && k != p ==> t.nodes[k].children == s.nodes[k].children
    requires t.nodes[p].children == Splice(s.nodes[p].children, IndexOf(s.nodes[p].children, id), s.nodes[id].children)
    requires forall x :: x in t.nodes[p].children <==> x in s.nodes[id].children || (x in s.nodes[p].children && x != id)
    ensures Keyed(t.nodes) && Ranked(t.nodes) && ChildrenListed(t.nodes)
  {
    var kids := s.nodes[id].children;
    forall x | x in kids ensures x !in s.nodes[p].children {
      assert s.nodes[x].parentId == Some(id);
    }
    SpliceChildrenUnique(s.nodes, t.nodes, id, p);
    SpliceChildrenPointBack(s.nodes, t.nodes, id, p);
  }

  /** The links of a forest after the splice closeTab does under a parent, on abstract states. */
  lemma SpliceLinked(s: TabState, t: TabState, id: TabId, p: TabId)
    requires Linked(s)
    requires id in s.nodes && s.nodes[id].parentId == Some(p) && p in s.nodes && p != id && id in s.nodes[p].children
    requires t.nodes.Keys == s.nodes.Keys - {id} && t.rootIds == s.rootIds
    requires forall k :: k in t.nodes ==> t.nodes[k].id == s.nodes[k].id
    requires forall k :: k in t.nodes ==> t.nodes[k].parentId == if k in s.nodes[id].children then Some(p) else s.nodes[k].parentId
    requires forall k :: k in t.nodes && k != p ==> t.nodes[k].children == s.nodes[k].children
    requires t.nodes[p].children == Splice(s.nodes[p].children, IndexOf(s.nodes[p].children, id), s.nodes[id].children)
    requires forall x :: x in t.nodes[p].children <==> x in s.nodes[id].children || (x in s.nodes[p].children && x != id)
    ensures Linked(t)
  {
    SpliceLinksChildren(s, t, id, p);
    assert forall x :: x in s.nodes[id].children ==> x in s.nodes && s.nodes[x].parentId == Some(id);
    SpliceChildrenParents(s, t, id, p);
  }

  lemma {:induction false} CloseTabUnderParentWellFormed(s: TabState, id: TabId, freshId: TabId)
    requires WellFormed(s) && id in s.nodes && s.nodes[id].parentId.Some?
    ensures WellFormed(CloseTab(s, id, freshId).state)
  {
    var r := CloseTab(s, id, freshId);
    var t := r.state;
    var p := s.nodes[id].parentId.value;
    if !r.reset {
      assert p in s.nodes && id in s.nodes[p].children && p < id;
      CloseTabUnderParentShape(s, id, p, freshId);
      SpliceLinked(s, t, id, p);
      assert s.activeTabId == Some(id) ==> t.activeTabId == Some(p);
      CloseTabActive(s, id, freshId);
      LinkedWellFormed(t);
    } else {
      InitialStateValid(freshId, HOME_URL);
    }
  }

  /** closeTab of a root, in terms of the old forest. */
  lemma CloseTabRootShape(s: TabState, id: TabId, freshId: TabId)
    requires id in s.nodes && s.nodes[id].parentId == None && id in s.rootIds && NoDup(s.rootIds)
    ensures var r := CloseTab(s, id, freshId);
      var t := r.state;
      var kids := s.nodes[id].children;
      !r.reset ==>
        && t.nodes.Keys == s.nodes.Keys - {id}
        && (forall k :: k in t.nodes ==> t.nodes[k].id == s.nodes[k].id)
        && (forall k :: k in t.nodes ==> t.nodes[k].parentId == if k in kids then None else s.nodes[k].parentId)
        && (forall k :: k in t.nodes ==> t.nodes[k].children == s.nodes[k].children)
        && t.rootIds == Splice(s.rootIds, IndexOf(s.rootIds, id), kids)
        && (forall x :: x in t.rootIds <==> x in kids || (x in s.rootIds && x != id))
  {
    UnlinkAtRoot(s, id);
    CloseTabAfterUnlink(s, id, freshId);
    SpliceMembers(s.rootIds, IndexOf(s.rootIds, id), s.nodes[id].children);
  }

  /** The link facts of closeTab at a root, on abstract before and after states. */
  lemma RootSpliceLinks(s: TabState, t: TabState, id: TabId)
    requires Linked(s)
    requires id in s.nodes && s.nodes[id].parentId == None && id in s.rootIds
    requires t.nodes.Keys == s.nodes.Keys - {id}
    requires forall k :: k in t.nodes ==> t.nodes[k].id == s.nodes[k].id
    requires forall k :: k in t.nodes ==> t.nodes[k].parentId == if k in s.nodes[id].children then None else s.nodes[k].parentId
    requires forall k :: k in t.nodes ==> t.nodes[k].children == s.nodes[k].children
    requires t.rootIds == Splice(s.rootIds, IndexOf(s.rootIds, id), s.nodes[id].children)
    requires forall x :: x in t.rootIds <==> x in s.nodes[id].children || (x in s.rootIds && x != id)
    ensures Linked(t)
  {
    var kids := s.nodes[id].children;
    assert forall x :: x in kids ==> x in s.nodes && s.nodes[x].parentId == Some(id);
    assert forall x :: x in kids ==> x !in s.rootIds;
    SpliceNoDup(s.rootIds, IndexOf(s.rootIds, id), kids);
    RootSpliceChildren(s.nodes, t.nodes, id);
    RootSpliceParents(s, t, id);
  }

  lemma {:induction false} CloseTabRootWellFormed(s: TabState, id: TabId, freshId: TabId)
    requires WellFormed(s) && id in s.nodes && s.nodes[id].parentId.None?
    ensures WellFormed(CloseTab(s, id, freshId).state)
  {
    var r := CloseTab(s, id, freshId);
    var t := r.state;
    var node := s.nodes[id];
    if !r.reset {
      assert id in s.rootIds;
      CloseTabRootShape(s, id, freshId);
      RootSpliceLinks(s, t, id);
      if s.activeTabId == Some(id) {
        if |node.children| > 0 {
          assert node.children[0] in t.nodes;
        } else {
          assert t.rootIds[0] in t.rootIds;
        }
      }
      CloseTabActive(s, id, freshId);
      LinkedWellFormed(t);
    } else {
      InitialStateValid(freshId, HOME_URL);
    }
  }

  /** closeTab keeps the forest well formed. */
  lemma CloseTabWellFormed(s: TabState, id: TabId, freshId: TabId)
    requires WellFormed(s)
    ensures WellFormed(CloseTab(s, id, freshId).state)
  {
    if id in s.nodes {
      if s.nodes[id].parentId.Some? {
        CloseTabUnderParentWellFormed(s, id, freshId);
      } else {
        CloseTabRootWellFormed(s, id, freshId);
      }
    }
  }

  // ---------------------------------------------------------------------------
  // closeSubtree

  /** What closeSubtree does to the links when some root survives: the collected ids leave the map
      and rootIds, id leaves its parent's children list, and nothing else changes apart from the
      active flags. */
  lemma CloseSubtreeShape(s: TabState, id: TabId, freshId: TabId)
    requires Ranked(s.nodes) && id in s.nodes
    ensures var node := s.nodes[id];
      var removed := Collect(s.nodes, id);
      var r := CloseSubtree(s, id, freshId);
      var t := r.state;
      !r.reset ==>
        && (forall k :: k in t.nodes <==> k in s.nodes && k !in removed)
        && (forall k :: k in t.nodes ==>
              t.nodes[k].id == s.nodes[k].id && t.nodes[k].parentId == s.nodes[k].parentId
              && t.nodes[k].title == s.nodes[k].title && t.nodes[k].url == s.nodes[k].url
              && t.nodes[k].isExpanded == s.nodes[k].isExpanded)
        && (forall k :: k in t.nodes && Some(k) != node.parentId ==> t.nodes[k].children == s.nodes[k].children)
        && (node.parentId.Some? && node.parentId.value in t.nodes ==>
              t.nodes[node.parentId.value].children == Without(s.nodes[node.parentId.value].children, [id]))
        && t.rootIds == Without(s.rootIds, removed)
  {
    var node := s.nodes[id];
    var removed := Collect(s.nodes, id);
    var d := DetachSubtree(s, id, removed);
    DetachShape(s, id, removed);
    var next := SubtreeSuccessor(s, node, removed, d.rootIds);
    var m := MoveActive(d.nodes, s.activeTabId, next);
    forall k | k in m
      ensures m[k].id == s.nodes[k].id && m[k].parentId == s.nodes[k].parentId
      ensures m[k].title == s.nodes[k].title && m[k].url == s.nodes[k].url
      ensures m[k].isExpanded == s.nodes[k].isExpanded
    {
      assert m[k].id == d.nodes[k].id && m[k].parentId == d.nodes[k].parentId && m[k].title == d.nodes[k].title;
      assert m[k].url == d.nodes[k].url && m[k].isExpanded == d.nodes[k].isExpanded;
    }
  }

  /** closeSubtree's detaching step, for any list of removed ids that includes id. */
  lemma DetachShape(s: TabState, id: TabId, removed: seq<TabId>)
    requires id in s.nodes && id in removed
    ensures var node := s.nodes[id];
      var d := DetachSubtree(s, id, removed);
      && (forall k :: k in d.nodes <==> k in s.nodes && k !in removed)
      && (forall k :: k in d.nodes && Some(k) != node.parentId ==> d.nodes[k] == s.nodes[k])
      && (node.parentId.Some? && node.parentId.value in d.nodes ==>
            var p := node.parentId.value;
            d.nodes[p] == s.nodes[p].(children := Without(s.nodes[p].children, [id])))
      && d.rootIds == Without(s.rootIds, removed) && d.activeTabId == s.activeTabId
  {
  }

  /** Pruning a downward- and upward-closed set of ids, with id dropped from its parent's list,
      keeps the children lists sound. */
  lemma PruneChildren(a: map<TabId, TabNode>, b: map<TabId, TabNode>, id: TabId, removed: seq<TabId>)
    requires Keyed(a) && Ranked(a) && ChildrenListed(a) && id in a && id in removed
    requires forall k, c :: k in a && c in a[k].children && c in removed && c != id ==> k in removed
    requires forall k :: k in b <==> k in a && k !in removed
    requires forall k :: k in b ==> b[k].id == a[k].id && b[k].parentId == a[k].parentId
    requires forall k :: k in b && Some(k) != a[id].parentId ==> b[k].children == a[k].children
    requires a[id].parentId.Some? && a[id].parentId.value in b ==>
      b[a[id].parentId.value].children == Without(a[a[id].parentId.value].children, [id])
    ensures Keyed(b) && Ranked(b) && ChildrenListed(b)
  {
    forall k | k in b ensures NoDup(b[k].children) {
      assert NoDup(a[k].children);
    }
    forall k, c | k in b && c in b[k].children ensures c > k && c in b && b[c].parentId == Some(k) {
      assert c in a[k].children;
      if Some(k) == a[id].parentId { assert c != id; }
      else { assert a[id].parentId != Some(k) && c != id; }
    }
  }

  /** ... and keeps the parent links sound. */
  lemma PruneParents(s: TabState, t: TabState, id: TabId, removed: seq<TabId>)
    requires RootsListed(s) && ParentsLinked(s) && id in s.nodes && id in removed
    requires forall k, c :: k in s.nodes && c in s.nodes[k].children && k in removed ==> c in removed
    requires forall k :: k in t.nodes <==> k in s.nodes && k !in removed
    requires forall k :: k in t.nodes ==> t.nodes[k].parentId == s.nodes[k].parentId
    requires forall k :: k in t.nodes && Some(k) != s.nodes[id].parentId ==> t.nodes[k].children == s.nodes[k].children
    requires s.nodes[id].parentId.Some? && s.nodes[id].parentId.value in t.nodes ==>
      t.nodes[s.nodes[id].parentId.value].children == Without(s.nodes[s.nodes[id].parentId.value].children, [id])
    requires t.rootIds == Without(s.rootIds, removed)
    ensures RootsListed(t) && ParentsLinked(t)
  {
    forall k | k in t.nodes && t.nodes[k].parentId.Some?
      ensures t.nodes[k].parentId.value in t.nodes && k in t.nodes[t.nodes[k].parentId.value].children
    {
      var q := s.nodes[k].parentId.value;
      assert q in s.nodes && k in s.nodes[q].children;
      assert q !in removed;
    }
  }

  lemma {:induction false} CloseSubtreeActive(s: TabState, id: TabId, freshId: TabId)
    requires Keyed(s.nodes) && Ranked(s.nodes) && ExactlyOneActive(s) && id in s.nodes
    requires var r := CloseSubtree(s, id, freshId);
      !r.reset && r.state.activeTabId.Some? && r.state.activeTabId.value in r.state.nodes
    ensures ExactlyOneActive(CloseSubtree(s, id, freshId).state)
  {
    var node := s.nodes[id];
    var removed := Collect(s.nodes, id);
    var d := DetachSubtree(s, id, removed);
    var next := SubtreeSuccessor(s, node, removed, d.rootIds);
    MoveActiveExactlyOne(d.nodes, s.activeTabId, next, d.rootIds);
  }

  /** Pruning a closed subtree keeps the links of the forest, on abstract states. */
  lemma PruneLinked(s: TabState, t: TabState, id: TabId, removed: seq<TabId>)
    requires Linked(s) && id in s.nodes && id in removed
    requires forall k, c :: k in s.nodes && c in s.nodes[k].children && k in removed ==> c in removed
    requires forall k, c :: k in s.nodes && c in s.nodes[k].children && c in removed && c != id ==> k in removed
    requires forall k :: k in t.nodes <==> k in s.nodes && k !in removed
    requires forall k :: k in t.nodes ==> t.nodes[k].id == s.nodes[k].id && t.nodes[k].parentId == s.nodes[k].parentId
    requires forall k :: k in t.nodes && Some(k) != s.nodes[id].parentId ==> t.nodes[k].children == s.nodes[k].children
    requires s.nodes[id].parentId.Some? && s.nodes[id].parentId.value in t.nodes ==>
      t.nodes[s.nodes[id].parentId.value].children == Without(s.nodes[s.nodes[id].parentId.value].children, [id])
    requires t.rootIds == Without(s.rootIds, removed)
    ensures Linked(t)
  {
    PruneChildren(s.nodes, t.nodes, id, removed);
    PruneParents(s, t, id, removed);
  }

  /** When closeSubtree keeps some root, its successor is a node that survives. */
  lemma {:induction false} CloseSubtreeSuccessorSurvives(s: TabState, id: TabId, freshId: TabId)
    requires WellFormed(s) && id in s.nodes
    requires forall k :: k in CloseSubtree(s, id, freshId).state.nodes <==> k in s.nodes && k !in Collect(s.nodes, id)
    requires CloseSubtree(s, id, freshId).state.rootIds == Without(s.rootIds, Collect(s.nodes, id))
    ensures var r := CloseSubtree(s, id, freshId);
      !r.reset ==> r.state.activeTabId.Some? && r.state.activeTabId.value in r.state.nodes
  {
    var r := CloseSubtree(s, id, freshId);
    var t := r.state;
    var removed := Collect(s.nodes, id);
    var node := s.nodes[id];
    if !r.reset && s.activeTabId.value in removed {
      if node.parentId.Some? {
        var p := node.parentId.value;
        assert p in s.nodes && p < id;
        assert p !in removed;
      } else {
        assert t.rootIds[0] in t.rootIds;
      }
    }
  }

  /** closeSubtree keeps the forest well formed. */
  lemma {:induction false} CloseSubtreeWellFormed(s: TabState, id: TabId, freshId: TabId)
    requires WellFormed(s)
    ensures WellFormed(CloseSubtree(s, id, freshId).state)
  {
    var r := CloseSubtree(s, id, freshId);
    var t := r.state;
    if id in s.nodes && !r.reset {
      var removed := Collect(s.nodes, id);
      CloseSubtreeShape(s, id, freshId);
      CollectSubtreeClosed(s, id);
      PruneLinked(s, t, id, removed);
      CloseSubtreeSuccessorSurvives(s, id, freshId);
      CloseSubtreeActive(s, id, freshId);
      LinkedWellFormed(t);
    } else if id in s.nodes {
      InitialStateValid(freshId, HOME_URL);
    }
  }
}

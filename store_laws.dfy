/** What each store operation does, stated against the snapshot before it. */
module StoreLaws {
  import opened Tabs
  import opened TabTree
  import opened Forest
  import opened TreeInvariants
  import opened WellFormedness

  // ---------------------------------------------------------------------------
  // ensureRoot

  /** ensureRoot resets only an empty tree, so a second call changes nothing. */
  lemma EnsureRootIdempotent(s: TabState, freshId: TabId, laterId: TabId)
    ensures |s.rootIds| > 0 ==> EnsureRoot(s, freshId) == s
    ensures |s.rootIds| == 0 ==> EnsureRoot(s, freshId) == InitialState(freshId, HOME_URL)
    ensures EnsureRoot(EnsureRoot(s, freshId), laterId) == EnsureRoot(s, freshId)
  {
  }

  // ---------------------------------------------------------------------------
  // createTab

  /** The generated id is new, becomes activeTabId, and is the only node flagged active; the title
      defaults to the loading placeholder and the new tab starts expanded and childless. */
  lemma CreateTabActivates(s: TabState, newId: TabId, parentId: Option<TabId>, url: string, title: Option<string>)
    requires Valid(s, newId) && parentId != Some(newId)
    ensures var t := CreateTab(s, newId, parentId, url, title);
      && newId !in s.nodes && newId in t.nodes
      && t.activeTabId == Some(newId)
      && (forall k :: k in t.nodes ==> (t.nodes[k].isActive <==> k == newId))
      && t.nodes[newId].title == (if title.Some? then title.value else LOADING_TITLE)
      && t.nodes[newId].url == url && t.nodes[newId].parentId == parentId
      && t.nodes[newId].children == [] && t.nodes[newId].isExpanded
  {
    var t := CreateTab(s, newId, parentId, url, title);
    forall k | k in t.nodes ensures t.nodes[k].isActive <==> k == newId {
      if k != newId {
        assert k in s.nodes;
        assert s.nodes[k].isActive ==> s.activeTabId == Some(k);
      }
    }
  }

  /** With an existing parent the new id goes to the end of its children and the parent is
      expanded; otherwise (no parent, or one that is not stored) it goes to the end of rootIds.
      Every other node only loses its active flag if it was the active one. */
  lemma CreateTabPlacement(s: TabState, newId: TabId, parentId: Option<TabId>, url: string, title: Option<string>)
    requires newId !in s.nodes && parentId != Some(newId)
    ensures var t := CreateTab(s, newId, parentId, url, title);
      && t.nodes.Keys == s.nodes.Keys + {newId}
      && (forall k :: k in s.nodes && Some(k) != parentId ==>
            t.nodes[k] == s.nodes[k].(isActive := s.nodes[k].isActive && s.activeTabId != Some(k)))
      && (parentId.Some? && parentId.value in s.nodes ==>
            var p := parentId.value;
            && t.nodes[p] == s.nodes[p].(children := s.nodes[p].children + [newId], isExpanded := true,
                                         isActive := s.nodes[p].isActive && s.activeTabId != Some(p))
            && t.rootIds == s.rootIds)
      && (!(parentId.Some? && parentId.value in s.nodes) ==> t.rootIds == s.rootIds + [newId])
  {
  }

  /** A parent id that is not stored is kept in the new node, which is listed as a root; closing
      that node later takes the parent branch and leaves its id in rootIds, so the tree is no
      longer well formed. */
  lemma DanglingParentLeavesStaleRoot(s: TabState, newId: TabId, p: TabId, url: string, title: Option<string>)
    requires Valid(s, newId) && p !in s.nodes && p != newId
    ensures var t := CreateTab(s, newId, Some(p), url, title);
      var r := CloseTab(t, newId, newId + 1);
      && newId in t.rootIds && t.nodes[newId].parentId == Some(p)
      && !r.reset && newId in r.state.rootIds && newId !in r.state.nodes
      && !WellFormed(r.state)
  {
    var t := CreateTab(s, newId, Some(p), url, title);
    var u := Unlink(t, newId);
    assert p !in t.nodes;
    assert u.rootIds == t.rootIds;
    assert t.rootIds[|t.rootIds| - 1] == newId;
  }

  /** Appending x to a list that lacks it and splicing it back out gives the list back. */
  lemma SpliceOutLast(s: seq<TabId>, x: TabId)
    requires x !in s
    ensures IndexOf(s + [x], x) == |s| && Splice(s + [x], |s|, []) == s
  {
    assert (s + [x])[|s|] == x;
    forall j | 0 <= j < |s| ensures (s + [x])[j] != x { assert (s + [x])[j] == s[j]; }
    assert (s + [x])[..|s|] == s;
  }

  /** Closing a childless active node under an existing parent p, whose children end with it. */
  lemma CloseActiveLeaf(t: TabState, id: TabId, p: TabId, pc: seq<TabId>, freshId: TabId)
    requires id in t.nodes && p in t.nodes && p != id && t.activeTabId == Some(id)
    requires t.nodes[id].parentId == Some(p) && t.nodes[id].children == []
    requires t.nodes[p].children == pc + [id] && id !in pc && |t.rootIds| > 0
    ensures var m := (t.nodes - {id})[p := t.nodes[p].(children := pc, isExpanded := true)];
      CloseTab(t, id, freshId) == Closed(TabState(m[p := m[p].(isActive := true)], t.rootIds, Some(p)), Some(p), false)
  {
    SpliceOutLast(pc, id);
    var m := (t.nodes - {id})[p := t.nodes[p].(children := pc, isExpanded := true)];
    assert Unlink(t, id) == TabState(m, t.rootIds, t.activeTabId);
    assert Reparent(m, [], Some(p)) == m;
    assert Deactivate(m, Some(id)) == m;
  }

  /** Closing a childless active root that ends rootIds. */
  lemma CloseActiveRootLeaf(t: TabState, id: TabId, roots: seq<TabId>, freshId: TabId)
    requires id in t.nodes && t.activeTabId == Some(id)
    requires t.nodes[id].parentId == None && t.nodes[id].children == []
    requires t.rootIds == roots + [id] && id !in roots && |roots| > 0 && roots[0] in t.nodes && roots[0] != id
    ensures var m := t.nodes - {id};
      CloseTab(t, id, freshId) == Closed(TabState(m[roots[0] := m[roots[0]].(isActive := true)], roots, Some(roots[0])), Some(roots[0]), false)
  {
    SpliceOutLast(roots, id);
    var m := t.nodes - {id};
    assert Unlink(t, id) == TabState(m, roots, t.activeTabId);
    assert Reparent(m, [], None) == m;
    assert Deactivate(m, Some(id)) == m;
  }

  /** Adding a leaf under p and unlinking it again leaves p expanded and nothing else changed. */
  lemma LeafRoundTrip(d: map<TabId, TabNode>, newId: TabId, leaf: TabNode, p: TabId)
    requires newId !in d && p in d && p != newId
    ensures var e := d[newId := leaf];
      var t := e[p := e[p].(children := e[p].children + [newId], isExpanded := true)];
      (t - {newId})[p := t[p].(children := d[p].children, isExpanded := true)] == d[p := d[p].(isExpanded := true)]
  {
  }

  /** The snapshot createTab builds for a new leaf under an existing parent p. */
  lemma CreateLeafUnder(s: TabState, newId: TabId, p: TabId, url: string, title: Option<string>)
    requires newId !in s.nodes && p in s.nodes
    ensures var d := Deactivate(s.nodes, s.activeTabId);
      var e := d[newId := TabNode(newId, Some(p), title.GetOr(LOADING_TITLE), url, [], true, true)];
      CreateTab(s, newId, Some(p), url, title)
        == TabState(e[p := e[p].(children := s.nodes[p].children + [newId], isExpanded := true)], s.rootIds, Some(newId))
  {
  }

  lemma CreateThenCloseChildCore(s: TabState, newId: TabId, p: TabId, url: string, title: Option<string>)
    requires newId !in s.nodes && p in s.nodes && newId !in s.nodes[p].children && |s.rootIds| > 0
    ensures var t := CreateTab(s, newId, Some(p), url, title);
      var r := CloseTab(t, newId, newId + 1);
      && !r.reset && r.active == Some(p)
      && r.state == TabState(Deactivate(s.nodes, s.activeTabId)[p := s.nodes[p].(isExpanded := true, isActive := true)],
                             s.rootIds, Some(p))
  {
    var t := CreateTab(s, newId, Some(p), url, title);
    var d := Deactivate(s.nodes, s.activeTabId);
    var leaf := TabNode(newId, Some(p), title.GetOr(LOADING_TITLE), url, [], true, true);
    var pc := s.nodes[p].children;
    assert d[p].children == pc;
    CreateLeafUnder(s, newId, p, url, title);
    CloseActiveLeaf(t, newId, p, pc, newId + 1);
    LeafRoundTrip(d, newId, leaf, p);
    assert d[p].(isExpanded := true, isActive := true) == s.nodes[p].(isExpanded := true, isActive := true);
  }

  /** Opening a tab under an existing parent p and closing it again gives back the old tree, except
      that p is expanded and becomes the active tab. */
  lemma CreateThenCloseChild(s: TabState, newId: TabId, p: TabId, url: string, title: Option<string>)
    requires WellFormed(s) && Issued(s.nodes, newId) && p in s.nodes
    ensures var t := CreateTab(s, newId, Some(p), url, title);
      var r := CloseTab(t, newId, newId + 1);
      && !r.reset && r.active == Some(p)
      && r.state == TabState(Deactivate(s.nodes, s.activeTabId)[p := s.nodes[p].(isExpanded := true, isActive := true)],
                             s.rootIds, Some(p))
  {
    forall c | c in s.nodes[p].children ensures c != newId { assert c in s.nodes; }
    CreateThenCloseChildCore(s, newId, p, url, title);
  }

  lemma CreateThenCloseRootCore(s: TabState, newId: TabId, url: string, title: Option<string>)
    requires newId !in s.nodes && newId !in s.rootIds && |s.rootIds| > 0 && s.rootIds[0] in s.nodes
    ensures var t := CreateTab(s, newId, None, url, title);
      var r := CloseTab(t, newId, newId + 1);
      var first := s.rootIds[0];
      && !r.reset && r.active == Some(first)
      && r.state == TabState(Deactivate(s.nodes, s.activeTabId)[first := s.nodes[first].(isActive := true)],
                             s.rootIds, Some(first))
  {
    var t := CreateTab(s, newId, None, url, title);
    var first := s.rootIds[0];
    assert t.rootIds == s.rootIds + [newId];
    CloseActiveRootLeaf(t, newId, s.rootIds, newId + 1);
    assert t.nodes - {newId} == Deactivate(s.nodes, s.activeTabId);
  }

  /** Opening a root tab and closing it again gives back the old tree, but the first root (not the
      previously active tab) becomes active. */
  lemma CreateThenCloseRoot(s: TabState, newId: TabId, url: string, title: Option<string>)
    requires WellFormed(s) && Issued(s.nodes, newId)
    ensures var t := CreateTab(s, newId, None, url, title);
      var r := CloseTab(t, newId, newId + 1);
      var first := s.rootIds[0];
      && !r.reset && r.active == Some(first)
      && r.state == TabState(Deactivate(s.nodes, s.activeTabId)[first := s.nodes[first].(isActive := true)],
                             s.rootIds, Some(first))
  {
    forall c | c in s.rootIds ensures c != newId { assert c in s.nodes; }
    assert s.rootIds[0] in s.rootIds;
    CreateThenCloseRootCore(s, newId, url, title);
  }

  // ---------------------------------------------------------------------------
  // activateTab, updateTabMetadata, updateTabUrl, toggleExpanded

  /** activateTab ignores an unknown id; otherwise it moves activeTabId and the flag and changes
      nothing else, leaving the named node the only one flagged. */
  lemma ActivateTabLaw(s: TabState, id: TabId)
    requires ActiveIsPointer(s)
    ensures id !in s.nodes ==> ActivateTab(s, id) == s
    ensures id in s.nodes ==>
      var t := ActivateTab(s, id);
      && t.rootIds == s.rootIds && t.activeTabId == Some(id) && t.nodes.Keys == s.nodes.Keys
      && (forall k :: k in t.nodes ==> t.nodes[k] == s.nodes[k].(isActive := k == id))
  {
    if id in s.nodes {
      var t := ActivateTab(s, id);
      forall k | k in t.nodes ensures t.nodes[k] == s.nodes[k].(isActive := k == id) {
        assert s.nodes[k].isActive ==> s.activeTabId == Some(k);
      }
    }
  }

  /** updateTabMetadata ignores an unknown id; otherwise only the named node's title and url change,
      each only when given. */
  lemma UpdateTabMetadataLaw(s: TabState, id: TabId, title: Option<string>, url: Option<string>)
    ensures id !in s.nodes ==> UpdateTabMetadata(s, id, title, url) == s
    ensures id in s.nodes ==>
      var t := UpdateTabMetadata(s, id, title, url);
      && t.rootIds == s.rootIds && t.activeTabId == s.activeTabId && t.nodes.Keys == s.nodes.Keys
      && (forall k :: k in t.nodes && k != id ==> t.nodes[k] == s.nodes[k])
      && t.nodes[id].title == (if title.Some? then title.value else s.nodes[id].title)
      && t.nodes[id].url == (if url.Some? then url.value else s.nodes[id].url)
      && t.nodes[id] == s.nodes[id].(title := t.nodes[id].title, url := t.nodes[id].url)
  {
  }

  /** Applying the same metadata twice is applying it once. */
  lemma UpdateTabMetadataIdempotent(s: TabState, id: TabId, title: Option<string>, url: Option<string>)
    ensures UpdateTabMetadata(UpdateTabMetadata(s, id, title, url), id, title, url) == UpdateTabMetadata(s, id, title, url)
  {
  }

  /** updateTabUrl is updateTabMetadata with only a url. */
  lemma UpdateTabUrlIsMetadata(s: TabState, id: TabId, url: string)
    ensures UpdateTabUrl(s, id, url) == UpdateTabMetadata(s, id, None, Some(url))
  {
  }

  /** toggleExpanded flips only the named node's isExpanded, and toggling twice is the identity. */
  lemma ToggleExpandedLaw(s: TabState, id: TabId)
    ensures id !in s.nodes ==> ToggleExpanded(s, id) == s
    ensures id in s.nodes ==>
      var t := ToggleExpanded(s, id);
      && t.rootIds == s.rootIds && t.activeTabId == s.activeTabId && t.nodes.Keys == s.nodes.Keys
      && (forall k :: k in t.nodes && k != id ==> t.nodes[k] == s.nodes[k])
      && t.nodes[id] == s.nodes[id].(isExpanded := !s.nodes[id].isExpanded)
    ensures ToggleExpanded(ToggleExpanded(s, id), id) == s
  {
  }

  // ---------------------------------------------------------------------------
  // closeTab

  /** closeTab of an unknown id changes nothing and returns activeTabId; in every case the returned
      id is the new activeTabId. */
  lemma CloseTabReturnsActive(s: TabState, id: TabId, freshId: TabId)
    ensures id !in s.nodes ==> CloseTab(s, id, freshId) == Closed(s, s.activeTabId, false)
    ensures CloseTab(s, id, freshId).active == CloseTab(s, id, freshId).state.activeTabId
  {
  }

  /** The successor rule: closing the active node hands over to its parent, else its first child,
      else the first root left; closing any other node keeps activeTabId. */
  lemma CloseTabSuccessor(s: TabState, id: TabId, freshId: TabId)
    requires id in s.nodes
    ensures var node := s.nodes[id];
      var r := CloseTab(s, id, freshId);
      !r.reset ==>
        && (s.activeTabId == Some(id) && node.parentId.Some? ==> r.active == node.parentId)
        && (s.activeTabId == Some(id) && node.parentId.None? && |node.children| > 0 ==> r.active == Some(node.children[0]))
        && (s.activeTabId == Some(id) && node.parentId.None? && |node.children| == 0 ==> r.active == Some(r.state.rootIds[0]))
        && (s.activeTabId != Some(id) ==> r.active == s.activeTabId)
  {
  }

  /** On a well-formed tree, closing a node that is not active leaves every active flag alone. */
  lemma CloseTabKeepsOtherActive(s: TabState, id: TabId, freshId: TabId)
    requires WellFormed(s) && id in s.nodes && s.activeTabId != Some(id)
    ensures var r := CloseTab(s, id, freshId);
      !r.reset ==> forall k :: k in r.state.nodes ==> k in s.nodes && r.state.nodes[k].isActive == s.nodes[k].isActive
  {
    var node := s.nodes[id];
    var u := Unlink(s, id);
    UnlinkKeeps(s, id);
    var n := Reparent(u.nodes, node.children, node.parentId);
    var a := s.activeTabId.value;
    assert a in n;
    var m := MoveActive(n, s.activeTabId, s.activeTabId);
    forall k | k in m ensures k in s.nodes && m[k].isActive == s.nodes[k].isActive {
      assert m[k].isActive == (k == a || (n[k].isActive && a != k));
      assert n[k].isActive == s.nodes[k].isActive;
    }
  }

  /** On a well-formed tree closeTab resets exactly when it closes the last tab: the only root, with
      no children. The reset state is a fresh Home root. */
  lemma CloseTabResetsOnlyLastTab(s: TabState, id: TabId, freshId: TabId)
    requires WellFormed(s) && id in s.nodes
    ensures var r := CloseTab(s, id, freshId);
      && (r.reset <==> s.rootIds == [id] && s.nodes[id].children == [])
      && (r.reset ==> r.state == InitialState(freshId, HOME_URL) && r.active == Some(freshId))
  {
    var node := s.nodes[id];
    var u := Unlink(s, id);
    if node.parentId.Some? {
      assert u.rootIds == s.rootIds;
      assert id !in s.rootIds;
    } else {
      assert id in s.rootIds;
      var i := IndexOf(s.rootIds, id);
      assert |u.rootIds| == |s.rootIds| - 1 + |node.children|;
      if |s.rootIds| == 1 {
        assert s.rootIds == [id];
      }
    }
  }

  /** On a well-formed tree the returned id is the one node flagged active afterwards. */
  lemma CloseTabExactlyOneActive(s: TabState, id: TabId, freshId: TabId)
    requires WellFormed(s)
    ensures var r := CloseTab(s, id, freshId);
      && r.active.Some? && r.active.value in r.state.nodes
      && forall k :: k in r.state.nodes ==> (r.state.nodes[k].isActive <==> Some(k) == r.active)
  {
    CloseTabWellFormed(s, id, freshId);
  }

  // ---------------------------------------------------------------------------
  // closeSubtree

  /** A root is in the subtree of id only when it is id. */
  lemma RootInSubtree(s: TabState, id: TabId, x: TabId)
    requires WellFormed(s) && id in s.nodes && x in s.rootIds
    ensures x in Collect(s.nodes, id) <==> x == id
  {
    CollectIsSubtree(s, id, x);
  }

  /** On a well-formed tree, closeSubtree removes exactly id and its descendants, from the map and
      from rootIds. */
  lemma {:induction false} CloseSubtreeRemovesDescendants(s: TabState, id: TabId, freshId: TabId)
    requires WellFormed(s) && id in s.nodes
    ensures var r := CloseSubtree(s, id, freshId);
      !r.reset ==>
        && (forall k :: k in r.state.nodes <==> k in s.nodes && !IsAncestor(s.nodes, id, k))
        && (forall k :: k in r.state.rootIds <==> k in s.rootIds && k != id)
  {
    CloseSubtreeShape(s, id, freshId);
    var r := CloseSubtree(s, id, freshId);
    forall k ensures k in Collect(s.nodes, id) <==> k in s.nodes && IsAncestor(s.nodes, id, k) {
      CollectIsSubtree(s, id, k);
    }
    forall k | k in s.rootIds ensures k in Collect(s.nodes, id) <==> k == id {
      RootInSubtree(s, id, k);
    }
  }

  /** The successor rule of closeSubtree: when the active node was removed, the parent of id, else
      the first root left; otherwise activeTabId is kept. On a well-formed tree the active node is
      removed exactly when id is one of its ancestors. */
  lemma CloseSubtreeSuccessor(s: TabState, id: TabId, freshId: TabId)
    requires WellFormed(s) && id in s.nodes
    ensures var node := s.nodes[id];
      var r := CloseSubtree(s, id, freshId);
      var a := s.activeTabId.value;
      && r.active == r.state.activeTabId
      && (!r.reset && IsAncestor(s.nodes, id, a) && node.parentId.Some? ==> r.active == node.parentId)
      && (!r.reset && IsAncestor(s.nodes, id, a) && node.parentId.None? ==> r.active == Some(r.state.rootIds[0]))
      && (!r.reset && !IsAncestor(s.nodes, id, a) ==> r.active == s.activeTabId)
  {
    CollectIsSubtree(s, id, s.activeTabId.value);
  }

  /** With id the only root among the removed ids, no root is left exactly when id was the only
      root. */
  lemma {:induction false} OnlyRootLeft(rootIds: seq<TabId>, removed: seq<TabId>, id: TabId)
    requires NoDup(rootIds) && |rootIds| > 0 && id in removed
    requires forall k :: k in rootIds ==> (k in removed <==> k == id)
    ensures |Without(rootIds, removed)| == 0 <==> rootIds == [id]
  {
    var roots := Without(rootIds, removed);
    if |roots| == 0 {
      forall i | 0 <= i < |rootIds| ensures rootIds[i] == id { assert rootIds[i] !in roots; }
      assert rootIds[0] == rootIds[|rootIds| - 1];
    }
    if rootIds == [id] {
      assert forall x :: x !in roots;
    }
  }

  /** On a well-formed tree closeSubtree resets exactly when id is the only root. */
  lemma {:induction false} CloseSubtreeResetsOnlyLastRoot(s: TabState, id: TabId, freshId: TabId)
    requires WellFormed(s) && id in s.nodes
    ensures var r := CloseSubtree(s, id, freshId);
      && (r.reset <==> s.rootIds == [id])
      && (r.reset ==> r.state == InitialState(freshId, HOME_URL) && r.active == Some(freshId))
  {
    var removed := Collect(s.nodes, id);
    assert Without(s.rootIds, removed) == DetachSubtree(s, id, removed).rootIds;
    forall k | k in s.rootIds ensures k in removed <==> k == id {
      RootInSubtree(s, id, k);
    }
    OnlyRootLeft(s.rootIds, removed, id);
  }
}

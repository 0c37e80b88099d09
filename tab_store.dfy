/** The tab store (src/renderer/stores/tabStore.ts): the forest snapshot held in fields that every
    action replaces. Each action is proved to produce the snapshot the matching TabTree function
    describes, to keep the Valid invariant, and to keep a well-formed forest well formed. */
module TabStore {
  import opened Tabs
  import opened TabTree
  import opened Forest
  import opened TreeInvariants
  import opened WellFormedness

  /** closeTab keeps Valid and keeps a well-formed forest well formed. */
  lemma CloseTabPreserves(s: TabState, id: TabId, freshId: TabId)
    requires TabTree.Valid(s, freshId)
    ensures var r := TabTree.CloseTab(s, id, freshId);
      && TabTree.Valid(r.state, if r.reset then freshId + 1 else freshId)
      && (WellFormed(s) ==> WellFormed(r.state))
  {
    CloseTabValid(s, id, freshId);
    if WellFormed(s) {
      CloseTabWellFormed(s, id, freshId);
    }
  }

  /** After unlinking and reparenting, only the node activeTabId names can still be flagged. */
  lemma CloseTabFlags(s: TabState, id: TabId)
    requires Keyed(s.nodes) && Ranked(s.nodes) && ActiveIsPointer(s)
    requires id in s.nodes
    ensures var u := Unlink(s, id);
      var n := Reparent(u.nodes, s.nodes[id].children, s.nodes[id].parentId);
      forall k :: k in n && n[k].isActive ==> s.activeTabId == Some(k)
  {
    UnlinkKeeps(s, id);
  }

  lemma CloseSubtreePreserves(s: TabState, id: TabId, freshId: TabId)
    requires TabTree.Valid(s, freshId)
    ensures var r := TabTree.CloseSubtree(s, id, freshId);
      && TabTree.Valid(r.state, if r.reset then freshId + 1 else freshId)
      && (WellFormed(s) ==> WellFormed(r.state))
  {
    CloseSubtreeValid(s, id, freshId);
    if WellFormed(s) {
      CloseSubtreeWellFormed(s, id, freshId);
    }
  }

  lemma CloseSubtreeFlags(s: TabState, id: TabId)
    requires Ranked(s.nodes) && ActiveIsPointer(s) && id in s.nodes
    ensures var d := DetachSubtree(s, id, Collect(s.nodes, id));
      forall k :: k in d.nodes && d.nodes[k].isActive ==> s.activeTabId == Some(k)
  {
  }

  lemma RemoveAllStep(n: map<TabId, TabNode>, ids: seq<TabId>, j: nat)
    requires j < |ids|
    ensures RemoveAll(n, ids[..j + 1]) == RemoveAll(n, ids[..j]) - {ids[j]}
  {
    assert ids[..j + 1][..j] == ids[..j];
  }

  class Store {
    var nodes: map<TabId, TabNode>
    var rootIds: seq<TabId>
    var activeTabId: Option<TabId>
    /** The next id the generator hands out; stands for crypto.randomUUID. */
    var nextId: TabId

    function State(): TabState
      reads this
    {
      TabState(nodes, rootIds, activeTabId)
    }

    ghost predicate Valid()
      reads this
    {
      TabTree.Valid(State(), nextId)
    }

    /** The store starts from buildInitialState(): one active Home root. */
    constructor ()
      ensures Valid() && WellFormed(State())
      ensures State() == InitialState(0, HOME_URL) && nextId == 1
    {
      nodes := map[0 := TabNode(0, None, HOME_TITLE, HOME_URL, [], true, true)];
      rootIds := [0];
      activeTabId := Some(0);
      nextId := 1;
      InitialStateValid(0, HOME_URL);
    }

    /** generateTabId: an id never handed out before. */
    method GenerateTabId() returns (id: TabId)
      modifies this`nextId
      ensures id == old(nextId) && nextId == old(nextId) + 1
    {
      id := nextId;
      nextId := nextId + 1;
    }

    /** set(buildInitialState()): replace the whole tree by a fresh Home root. */
    method Reset()
      modifies this
      ensures Valid() && WellFormed(State())
      ensures State() == InitialState(old(nextId), HOME_URL) && nextId == old(nextId) + 1
    {
      var id := GenerateTabId();
      nodes := map[id := TabNode(id, None, HOME_TITLE, HOME_URL, [], true, true)];
      rootIds := [id];
      activeTabId := Some(id);
      InitialStateValid(id, HOME_URL);
    }

    /** Clears the flag of the node activeTabId names, when it exists. */
    static method Deactivated(ns: map<TabId, TabNode>, active: Option<TabId>) returns (r: map<TabId, TabNode>)
      ensures r == Deactivate(ns, active)
    {
      r := ns;
      if active.Some? && active.value in ns {
        r := ns[active.value := ns[active.value].(isActive := false)];
      }
    }

    method CreateTab(parentId: Option<TabId>, url: string, title: Option<string>) returns (newId: TabId)
      requires Valid()
      requires parentId != Some(nextId)
      modifies this
      ensures Valid()
      ensures newId == old(nextId) && nextId == old(nextId) + 1
      ensures State() == TabTree.CreateTab(old(State()), newId, parentId, url, title)
      ensures old(WellFormed(State())) && (parentId.None? || parentId.value in old(nodes)) ==> WellFormed(State())
    {
      ghost var before := State();
      newId := GenerateTabId();
      var newNode := TabNode(newId, parentId, title.GetOr(LOADING_TITLE), url, [], true, true);
      var ns := Deactivated(nodes, activeTabId);
      ns := ns[newId := newNode];
      var roots := rootIds;
      if parentId.Some? {
        if parentId.value in ns {
          var parent := ns[parentId.value];
          ns := ns[parentId.value := parent.(children := parent.children + [newId], isExpanded := true)];
        } else {
          roots := rootIds + [newId];
        }
      } else {
        roots := rootIds + [newId];
      }
      nodes, rootIds, activeTabId := ns, roots, Some(newId);
      CreateTabValid(before, newId, parentId, url, title);
      if WellFormed(before) && (parentId.None? || parentId.value in before.nodes) {
        CreateTabWellFormed(before, newId, parentId, url, title);
      }
    }

    method ActivateTab(tabId: TabId)
      requires Valid()
      modifies this`nodes, this`activeTabId
      ensures Valid()
      ensures State() == TabTree.ActivateTab(old(State()), tabId)
      ensures old(WellFormed(State())) ==> WellFormed(State())
    {
      ghost var before := State();
      if tabId !in nodes {
        return;
      }
      var ns := Deactivated(nodes, activeTabId);
      ns := ns[tabId := ns[tabId].(isActive := true)];
      nodes, activeTabId := ns, Some(tabId);
      ActivateTabValid(before, tabId, nextId);
      if WellFormed(before) {
        ActivateTabWellFormed(before, tabId);
      }
    }

    method UpdateTabMetadata(tabId: TabId, title: Option<string>, url: Option<string>)
      requires Valid()
      modifies this`nodes
      ensures Valid()
      ensures State() == TabTree.UpdateTabMetadata(old(State()), tabId, title, url)
      ensures old(WellFormed(State())) ==> WellFormed(State())
    {
      ghost var before := State();
      if tabId !in nodes {
        return;
      }
      var node := nodes[tabId];
      nodes := nodes[tabId := node.(title := title.GetOr(node.title), url := url.GetOr(node.url))];
      UpdateTabMetadataValid(before, tabId, nextId, title, url);
      if WellFormed(before) {
        UpdateTabMetadataWellFormed(before, tabId, title, url);
      }
    }

    method UpdateTabUrl(tabId: TabId, url: string)
      requires Valid()
      modifies this`nodes
      ensures Valid()
      ensures State() == TabTree.UpdateTabUrl(old(State()), tabId, url)
      ensures old(WellFormed(State())) ==> WellFormed(State())
    {
      ghost var before := State();
      if tabId !in nodes {
        return;
      }
      nodes := nodes[tabId := nodes[tabId].(url := url)];
      UpdateTabUrlValid(before, tabId, nextId, url);
      if WellFormed(before) {
        UpdateTabUrlWellFormed(before, tabId, url);
      }
    }

    method ToggleExpanded(tabId: TabId)
      requires Valid()
      modifies this`nodes
      ensures Valid()
      ensures State() == TabTree.ToggleExpanded(old(State()), tabId)
      ensures old(WellFormed(State())) ==> WellFormed(State())
    {
      ghost var before := State();
      if tabId !in nodes {
        return;
      }
      var node := nodes[tabId];
      nodes := nodes[tabId := node.(isExpanded := !node.isExpanded)];
      ToggleExpandedValid(before, tabId, nextId);
      if WellFormed(before) {
        ToggleExpandedWellFormed(before, tabId);
      }
    }

    method EnsureRoot()
      requires Valid()
      modifies this
      ensures Valid()
      ensures State() == TabTree.EnsureRoot(old(State()), old(nextId))
      ensures nextId == old(nextId) + (if |old(rootIds)| == 0 then 1 else 0)
      ensures WellFormed(State()) || old(State()) == State()
      ensures old(WellFormed(State())) ==> WellFormed(State())
    {
      if |rootIds| == 0 {
        Reset();
      }
    }

    /** The successor's activation (steps 182-188 / 243-249): Object.values(nodes).find(isActive)
        is cleared, then the successor flagged. Under Valid the node found is the old pointer's. */
    static method Activate(ns: map<TabId, TabNode>, previous: Option<TabId>, next: Option<TabId>)
      returns (r: map<TabId, TabNode>)
      requires forall k :: k in ns && ns[k].isActive ==> previous == Some(k)
      ensures r == MoveActive(ns, previous, next)
    {
      r := ns;
      if next.Some? && next.value in ns {
        if exists k :: k in ns && ns[k].isActive {
          var found :| found in ns && ns[found].isActive;
          r := r[found := r[found].(isActive := false)];
        } else {
          assert Deactivate(ns, previous) == ns;
        }
        r := r[next.value := r[next.value].(isActive := true)];
      }
    }

    /** closeTab, steps 142-165: the node is deleted and unhooked from its parent's children,
        or from rootIds, with its own children spliced into its place. */
    static method UnlinkFrom(s: TabState, tabId: TabId) returns (ns: map<TabId, TabNode>, roots: seq<TabId>)
      requires tabId in s.nodes
      ensures TabState(ns, roots, s.activeTabId) == Unlink(s, tabId)
    {
      var node := s.nodes[tabId];
      ns := s.nodes - {tabId};
      roots := s.rootIds;
      if node.parentId.Some? {
        var p := node.parentId.value;
        if p in ns {
          var parent := ns[p];
          var index := IndexOf(parent.children, tabId);
          var updated := parent.children;
          if index != -1 {
            updated := Splice(updated, index, node.children);
          }
          ns := ns[p := parent.(children := updated, isExpanded := true)];
        }
      } else {
        var rootIndex := IndexOf(roots, tabId);
        if rootIndex != -1 {
          roots := Splice(roots, rootIndex, node.children);
        }
      }
    }

    /** closeTab, steps 167-174: node.children.forEach, re-pointing each stored child. */
    static method ReparentChildren(ns: map<TabId, TabNode>, kids: seq<TabId>, parentId: Option<TabId>)
      returns (r: map<TabId, TabNode>)
      ensures r == Reparent(ns, kids, parentId)
    {
      r := ns;
      var i := 0;
      while i < |kids|
        invariant 0 <= i <= |kids|
        invariant r == Reparent(ns, kids[..i], parentId)
      {
        var childId := kids[i];
        assert kids[..i + 1][..i] == kids[..i];
        if childId in r {
          r := r[childId := r[childId].(parentId := parentId)];
        }
        i := i + 1;
      }
      assert kids[..|kids|] == kids;
    }

    method CloseTab(tabId: TabId) returns (result: Option<TabId>)
      requires Valid()
      modifies this
      ensures Valid()
      ensures var res := TabTree.CloseTab(old(State()), tabId, old(nextId));
        && State() == res.state && result == res.active
        && nextId == old(nextId) + (if res.reset then 1 else 0)
      ensures old(WellFormed(State())) ==> WellFormed(State())
    {
      ghost var before := State();
      CloseTabPreserves(before, tabId, nextId);
      if tabId !in nodes {
        return activeTabId;
      }
      var node := nodes[tabId];
      var ns, roots := UnlinkFrom(State(), tabId);
      ns := ReparentChildren(ns, node.children, node.parentId);
      var nextActive := activeTabId;
      if activeTabId == Some(tabId) {
        nextActive :=
          if node.parentId.Some? then node.parentId
          else if |node.children| > 0 then Some(node.children[0])
          else if |roots| > 0 then Some(roots[0])
          else None;
      }
      CloseTabFlags(before, tabId);
      ns := Activate(ns, activeTabId, nextActive);
      if |roots| == 0 {
        Reset();
        return activeTabId;
      }
      nodes, rootIds, activeTabId := ns, roots, nextActive;
      return nextActive;
    }

    /** closeSubtree's collect: appends id and, when it is stored, the collections of its
        children in order. */
    method CollectInto(id: TabId, accumulator: seq<TabId>) returns (r: seq<TabId>)
      requires Ranked(nodes)
      ensures r == accumulator + Collect(nodes, id)
      decreases AtLeast(nodes, id), 0
    {
      r := accumulator + [id];
      if id !in nodes {
        return;
      }
      assert id in AtLeast(nodes, id) - Above(nodes, id);
      var children := nodes[id].children;
      var i := 0;
      while i < |children|
        invariant 0 <= i <= |children|
        invariant forall c :: c in children[..i] ==> c in children
        invariant r == accumulator + [id] + CollectAll(nodes, children[..i], id)
      {
        var childId := children[i];
        assert childId in nodes[id].children;
        assert AtLeast(nodes, childId) <= Above(nodes, id);
        assert children[..i + 1][..i] == children[..i];
        r := CollectInto(childId, r);
        i := i + 1;
      }
      assert children[..|children|] == children;
    }

    /** idsToRemove.forEach(id => delete nodes[id]). */
    static method RemoveIds(ns: map<TabId, TabNode>, ids: seq<TabId>) returns (r: map<TabId, TabNode>)
      ensures r == RemoveAll(ns, ids)
    {
      r := ns;
      var j := 0;
      while j < |ids|
        invariant 0 <= j <= |ids|
        invariant r == RemoveAll(ns, ids[..j])
      {
        RemoveAllStep(ns, ids, j);
        r := r - {ids[j]};
        j := j + 1;
      }
      assert ids[..|ids|] == ids;
    }

    /** closeSubtree, steps 221-235: delete the collected ids and unhook the subtree. */
    static method DetachFrom(s: TabState, tabId: TabId, idsToRemove: seq<TabId>)
      returns (ns: map<TabId, TabNode>, roots: seq<TabId>)
      requires tabId in s.nodes
      ensures TabState(ns, roots, s.activeTabId) == DetachSubtree(s, tabId, idsToRemove)
    {
      var node := s.nodes[tabId];
      ns := RemoveIds(s.nodes, idsToRemove);
      roots := Without(s.rootIds, idsToRemove);
      if node.parentId.Some? {
        var p := node.parentId.value;
        if p in ns {
          ns := ns[p := ns[p].(children := Without(ns[p].children, [tabId]))];
        }
      }
    }

    method CloseSubtree(tabId: TabId) returns (result: Option<TabId>)
      requires Valid()
      modifies this
      ensures Valid()
      ensures var res := TabTree.CloseSubtree(old(State()), tabId, old(nextId));
        && State() == res.state && result == res.active
        && nextId == old(nextId) + (if res.reset then 1 else 0)
      ensures old(WellFormed(State())) ==> WellFormed(State())
    {
      ghost var before := State();
      CloseSubtreePreserves(before, tabId, nextId);
      if tabId !in nodes {
        return activeTabId;
      }
      var node := nodes[tabId];
      var idsToRemove := CollectInto(tabId, []);
      assert idsToRemove == Collect(before.nodes, tabId);
      var ns, roots := DetachFrom(State(), tabId, idsToRemove);
      ghost var d := DetachSubtree(before, tabId, idsToRemove);
      assert ns == d.nodes && roots == d.rootIds;
      var nextActive := activeTabId;
      if activeTabId.Some? && activeTabId.value in idsToRemove {
        nextActive :=
          if node.parentId.Some? then node.parentId
          else if |roots| > 0 then Some(roots[0])
          else None;
      }
      CloseSubtreeFlags(before, tabId);
      ns := Activate(ns, activeTabId, nextActive);
      if |roots| == 0 {
        Reset();
        return activeTabId;
      }
      nodes, rootIds, activeTabId := ns, roots, nextActive;
      return nextActive;
    }
  }
}

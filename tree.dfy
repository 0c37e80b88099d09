/** The tab-tree store as pure transitions on a TabState snapshot
    (src/renderer/stores/tabStore.ts). TabStore.Store runs these step by step. */
module TabTree {
  import opened Tabs

  // ---------------------------------------------------------------------------
  // Sequence primitives the store uses: indexOf, splice, filter.

  predicate NoDup(s: seq<TabId>) {
    forall i, j :: 0 <= i < j < |s| ==> s[i] != s[j]
  }

  /** Array.prototype.indexOf: the first position of x, or -1. */
  function IndexOf(s: seq<TabId>, x: TabId): (r: int)
    ensures -1 <= r < |s|
    ensures r == -1 <==> x !in s
    ensures r >= 0 ==> s[r] == x && forall j :: 0 <= j < r ==> s[j] != x
  {
    if |s| == 0 then -1
    else if s[0] == x then 0
    else
      var k := IndexOf(s[1..], x);
      if k == -1 then -1 else k + 1
  }

  /** s.splice(i, 1, ...ins): the element at i is replaced by ins. */
  function Splice(s: seq<TabId>, i: nat, ins: seq<TabId>): seq<TabId>
    requires i < |s|
  {
    s[..i] + ins + s[i + 1..]
  }

  /** s.filter(x => !removed.includes(x)). */
  function Without(s: seq<TabId>, removed: seq<TabId>): (r: seq<TabId>)
    ensures forall x :: x in r <==> x in s && x !in removed
    ensures NoDup(s) ==> NoDup(r)
  {
    if |s| == 0 then []
    else
      var rest := Without(s[1..], removed);
      assert NoDup(s) ==> s[0] !in s[1..];
      if s[0] in removed then rest else [s[0]] + rest
  }

  /** filter keeps or drops a single element on its own. */
  lemma WithoutSingle(x: TabId, removed: seq<TabId>)
    ensures Without([x], removed) == if x in removed then [] else [x]
  {
    assert [x][1..] == [];
  }

  /** filter works element by element, so the kept ids stay in their original order. */
  lemma {:induction false} WithoutConcat(a: seq<TabId>, b: seq<TabId>, removed: seq<TabId>)
    ensures Without(a + b, removed) == Without(a, removed) + Without(b, removed)
    decreases |a|
  {
    if |a| == 0 {
      assert a + b == b;
    } else {
      assert (a + b)[0] == a[0];
      assert (a + b)[1..] == a[1..] + b;
      WithoutConcat(a[1..], b, removed);
    }
  }

  // ---------------------------------------------------------------------------
  // Invariants.

  /** Every node is filed under its own id. */
  ghost predicate Keyed(n: map<TabId, TabNode>) {
    forall k :: k in n ==> n[k].id == k
  }

  /** A child's id is larger than its parent's: ids are allocated in creation order and a child is
      only ever listed under an older node. This rules out cycles through the children lists. */
  ghost predicate Ranked(n: map<TabId, TabNode>) {
    forall k, c :: k in n && c in n[k].children ==> c > k
  }

  /** Every stored id was issued by the id generator. */
  ghost predicate Issued(n: map<TabId, TabNode>, nextId: TabId) {
    forall k :: k in n ==> k < nextId
  }

  /** A node flagged active is the one activeTabId names (so at most one is flagged). */
  ghost predicate ActiveIsPointer(s: TabState) {
    forall k :: k in s.nodes && s.nodes[k].isActive ==> s.activeTabId == Some(k)
  }

  /** What every store operation keeps, whatever its arguments. */
  ghost predicate Valid(s: TabState, nextId: TabId) {
    Keyed(s.nodes) && Ranked(s.nodes) && Issued(s.nodes, nextId) && ActiveIsPointer(s)
  }

  /** rootIds lists existing roots, once each. */
  ghost predicate RootsListed(s: TabState) {
    && NoDup(s.rootIds)
    && forall r :: r in s.rootIds ==> r in s.nodes && s.nodes[r].parentId == None
  }

  /** No children list repeats an id. */
  ghost predicate ChildrenUnique(n: map<TabId, TabNode>) {
    forall k :: k in n ==> NoDup(n[k].children)
  }

  /** Children lists name existing nodes whose parentId points back. */
  ghost predicate ChildrenPointBack(n: map<TabId, TabNode>) {
    forall k, c {:trigger c in n[k].children} :: k in n && c in n[k].children ==> c in n && n[c].parentId == Some(k)
  }

  /** Children lists name existing nodes, once each, whose parentId points back. */
  ghost predicate ChildrenListed(n: map<TabId, TabNode>) {
    ChildrenUnique(n) && ChildrenPointBack(n)
  }

  /** A node with no parent is a listed root; otherwise its parent exists and lists it. */
  ghost predicate ParentsLinked(s: TabState) {
    forall k :: k in s.nodes ==>
      (s.nodes[k].parentId.None? ==> k in s.rootIds)
      && (s.nodes[k].parentId.Some? ==>
            s.nodes[k].parentId.value in s.nodes && k in s.nodes[s.nodes[k].parentId.value].children)
  }

  /** Exactly one node is flagged active, and it is activeTabId. */
  ghost predicate ExactlyOneActive(s: TabState) {
    && s.activeTabId.Some? && s.activeTabId.value in s.nodes
    && forall k :: k in s.nodes ==> (s.nodes[k].isActive <==> k == s.activeTabId.value)
  }

  /** The tree is a non-empty forest: each node sits in exactly one of rootIds or one children
      list, parent pointers agree with the lists, and exactly one node is active. */
  ghost predicate WellFormed(s: TabState) {
    && Keyed(s.nodes) && Ranked(s.nodes)
    && RootsListed(s) && ChildrenListed(s.nodes) && ParentsLinked(s)
    && |s.rootIds| > 0
    && ExactlyOneActive(s)
  }

  // ---------------------------------------------------------------------------
  // Operations (tabStore.ts).

  /** buildInitialState: a single active root. */
  function InitialState(id: TabId, url: string): (r: TabState)
    ensures r.nodes.Keys == {id} && r.rootIds == [id] && r.activeTabId == Some(id)
    ensures r.nodes[id].parentId.None? && r.nodes[id].children == [] && r.nodes[id].isActive
    ensures r.nodes[id].title == HOME_TITLE && r.nodes[id].url == url
  {
    TabState(map[id := TabNode(id, None, HOME_TITLE, url, [], true, true)], [id], Some(id))
  }

  /** Clears the active flag of the node `active` names, if it exists. */
  function Deactivate(n: map<TabId, TabNode>, active: Option<TabId>): (r: map<TabId, TabNode>)
    ensures r.Keys == n.Keys
    ensures forall k :: k in r ==> r[k] == n[k].(isActive := n[k].isActive && active != Some(k))
  {
    if active.Some? && active.value in n then n[active.value := n[active.value].(isActive := false)]
    else n
  }

  /** createTab with the generated id newId. */
  function CreateTab(s: TabState, newId: TabId, parentId: Option<TabId>, url: string, title: Option<string>): (r: TabState)
    ensures r.nodes.Keys == s.nodes.Keys + {newId} && r.activeTabId == Some(newId)
    ensures r.nodes[newId].parentId == parentId && r.nodes[newId].url == url
    ensures r.rootIds == s.rootIds || r.rootIds == s.rootIds + [newId]
  {
    var newNode := TabNode(newId, parentId, title.GetOr(LOADING_TITLE), url, [], true, true);
    var nodes := Deactivate(s.nodes, s.activeTabId)[newId := newNode];
    if parentId.Some? && parentId.value in nodes then
      var parent := nodes[parentId.value];
      var parent' := parent.(children := parent.children + [newId], isExpanded := true);
      TabState(nodes[parentId.value := parent'], s.rootIds, Some(newId))
    else
      TabState(nodes, s.rootIds + [newId], Some(newId))
  }

  function ActivateTab(s: TabState, id: TabId): (r: TabState)
    ensures r.nodes.Keys == s.nodes.Keys && r.rootIds == s.rootIds
    ensures r.activeTabId == if id in s.nodes then Some(id) else s.activeTabId
  {
    if id !in s.nodes then s
    else
      var nodes := Deactivate(s.nodes, s.activeTabId);
      TabState(nodes[id := nodes[id].(isActive := true)], s.rootIds, Some(id))
  }

  /** updateTabMetadata: a None field is one the metadata object leaves out. */
  function UpdateTabMetadata(s: TabState, id: TabId, title: Option<string>, url: Option<string>): (r: TabState)
    ensures r.nodes.Keys == s.nodes.Keys && r.rootIds == s.rootIds && r.activeTabId == s.activeTabId
    ensures id in s.nodes && title.Some? ==> r.nodes[id].title == title.value
    ensures id in s.nodes && url.Some? ==> r.nodes[id].url == url.value
  {
    if id !in s.nodes then s
    else
      var node := s.nodes[id];
      TabState(s.nodes[id := node.(title := title.GetOr(node.title), url := url.GetOr(node.url))],
               s.rootIds, s.activeTabId)
  }

  function UpdateTabUrl(s: TabState, id: TabId, url: string): (r: TabState)
    ensures r.nodes.Keys == s.nodes.Keys && r.rootIds == s.rootIds && r.activeTabId == s.activeTabId
    ensures id in s.nodes ==> r.nodes[id].url == url
  {
    if id !in s.nodes then s
    else TabState(s.nodes[id := s.nodes[id].(url := url)], s.rootIds, s.activeTabId)
  }

  function ToggleExpanded(s: TabState, id: TabId): (r: TabState)
    ensures r.nodes.Keys == s.nodes.Keys && r.rootIds == s.rootIds && r.activeTabId == s.activeTabId
    ensures id in s.nodes ==> r.nodes[id].isExpanded != s.nodes[id].isExpanded
  {
    if id !in s.nodes then s
    else
      var node := s.nodes[id];
      TabState(s.nodes[id := node.(isExpanded := !node.isExpanded)], s.rootIds, s.activeTabId)
  }

  /** ensureRoot, with freshId the id a reset would generate. */
  function EnsureRoot(s: TabState, freshId: TabId): (r: TabState)
    ensures |r.rootIds| > 0
    ensures |s.rootIds| > 0 ==> r == s
  {
    if |s.rootIds| == 0 then InitialState(freshId, HOME_URL) else s
  }

  /** Outcome of closeTab / closeSubtree: the new snapshot, the returned id, and whether the
      empty-tree reset (which consumes a generated id) happened. */
  datatype Closed = Closed(state: TabState, active: Option<TabId>, reset: bool)

  /** closeTab, steps 141-165: the node leaves the map and its children take its place in its
      parent's children list (forcing the parent expanded) or in rootIds. */
  function Unlink(s: TabState, id: TabId): (r: TabState)
    requires id in s.nodes
    ensures r.nodes.Keys == s.nodes.Keys - {id} && r.activeTabId == s.activeTabId
    ensures s.nodes[id].parentId.Some? ==> r.rootIds == s.rootIds
  {
    var node := s.nodes[id];
    var nodes := s.nodes - {id};
    if node.parentId.Some? then
      var p := node.parentId.value;
      if p in nodes then
        var parent := nodes[p];
        var index := IndexOf(parent.children, id);
        var kids := if index != -1 then Splice(parent.children, index, node.children) else parent.children;
        TabState(nodes[p := parent.(children := kids, isExpanded := true)], s.rootIds, s.activeTabId)
      else
        TabState(nodes, s.rootIds, s.activeTabId)
    else
      var rootIndex := IndexOf(s.rootIds, id);
      var roots := if rootIndex != -1 then Splice(s.rootIds, rootIndex, node.children) else s.rootIds;
      TabState(nodes, roots, s.activeTabId)
  }

  /** closeTab, steps 167-174: every listed child that exists gets parentId := parentId. */
  function Reparent(n: map<TabId, TabNode>, kids: seq<TabId>, parentId: Option<TabId>): (r: map<TabId, TabNode>)
    ensures r.Keys == n.Keys
    ensures forall k :: k in r ==> r[k] == if k in kids then n[k].(parentId := parentId) else n[k]
  {
    if |kids| == 0 then n
    else
      var m := Reparent(n, kids[..|kids| - 1], parentId);
      var c := kids[|kids| - 1];
      assert forall k :: k in kids <==> k in kids[..|kids| - 1] || k == c;
      if c in m then m[c := m[c].(parentId := parentId)] else m
  }

  /** closeTab, steps 176-180: the closed active node hands over to its parent, else its first
      child, else the first root left; closing another node keeps the active one. */
  function CloseSuccessor(s: TabState, id: TabId, node: TabNode, roots: seq<TabId>): (r: Option<TabId>)
    ensures s.activeTabId != Some(id) ==> r == s.activeTabId
    ensures s.activeTabId == Some(id) && r.Some? ==>
      r == node.parentId || r.value in node.children || r.value in roots
    ensures s.activeTabId == Some(id) && r.None? ==>
      node.parentId.None? && |node.children| == 0 && |roots| == 0
  {
    if s.activeTabId == Some(id) then
      if node.parentId.Some? then node.parentId
      else if |node.children| > 0 then Some(node.children[0])
      else if |roots| > 0 then Some(roots[0])
      else None
    else s.activeTabId
  }

  /** Steps 182-188 / 243-249: when the successor exists, the formerly active node is cleared and
      the successor flagged. */
  function MoveActive(n: map<TabId, TabNode>, previous: Option<TabId>, next: Option<TabId>): (r: map<TabId, TabNode>)
    ensures r.Keys == n.Keys
    ensures next.Some? && next.value in n ==>
      forall k :: k in r ==> r[k] == n[k].(isActive := k == next.value || (n[k].isActive && previous != Some(k)))
    ensures !(next.Some? && next.value in n) ==> r == n
  {
    if next.Some? && next.value in n then
      var m := Deactivate(n, previous);
      m[next.value := m[next.value].(isActive := true)]
    else n
  }

  /** Steps 190-202 / 251-263: commit, or reset to a fresh Home root when no root is left. */
  function Commit(nodes: map<TabId, TabNode>, roots: seq<TabId>, next: Option<TabId>, freshId: TabId): (r: Closed)
    ensures r.reset <==> |roots| == 0
    ensures r.active == r.state.activeTabId && |r.state.rootIds| > 0
    ensures !r.reset ==> r.state.nodes == nodes && r.state.rootIds == roots && r.active == next
  {
    if |roots| == 0 then Closed(InitialState(freshId, HOME_URL), Some(freshId), true)
    else Closed(TabState(nodes, roots, next), next, false)
  }

  function CloseTab(s: TabState, id: TabId, freshId: TabId): (r: Closed)
    ensures id !in s.nodes ==> r == Closed(s, s.activeTabId, false)
    ensures r.active == r.state.activeTabId
    ensures id in s.nodes && !r.reset ==> id !in r.state.nodes && |r.state.rootIds| > 0
  {
    if id !in s.nodes then Closed(s, s.activeTabId, false)
    else
      var node := s.nodes[id];
      var u := Unlink(s, id);
      var nodes := Reparent(u.nodes, node.children, node.parentId);
      var next := CloseSuccessor(s, id, node, u.rootIds);
      Commit(MoveActive(nodes, s.activeTabId, next), u.rootIds, next, freshId)
  }

  ghost function AtLeast(n: map<TabId, TabNode>, id: TabId): set<TabId> {
    set k | k in n && k >= id
  }

  ghost function Above(n: map<TabId, TabNode>, id: TabId): set<TabId> {
    set k | k in n && k > id
  }

  /** closeSubtree's collect: id, then the collections of its children in order (ids that are
      not in the map are collected but not descended into). */
  function Collect(n: map<TabId, TabNode>, id: TabId): (r: seq<TabId>)
    requires Ranked(n)
    ensures |r| > 0 && r[0] == id
    ensures forall e :: e in r ==> e >= id
    decreases AtLeast(n, id), 0
  {
    if id in n then
      assert id in AtLeast(n, id) - Above(n, id);
      [id] + CollectAll(n, n[id].children, id)
    else [id]
  }

  /** ids.forEach(childId => collect(childId, accumulator)) for children of `above`. */
  function CollectAll(n: map<TabId, TabNode>, ids: seq<TabId>, above: TabId): (r: seq<TabId>)
    requires Ranked(n)
    requires forall c :: c in ids ==> c > above
    ensures forall e :: e in r ==> e > above
    decreases Above(n, above), 1, |ids|
  {
    if |ids| == 0 then []
    else
      var last := ids[|ids| - 1];
      var prefix := ids[..|ids| - 1];
      assert last in ids;
      assert forall c :: c in prefix ==> c in ids;
      assert AtLeast(n, last) <= Above(n, above);
      CollectAll(n, prefix, above) + Collect(n, last)
  }

  /** idsToRemove.forEach(id => delete nodes[id]). */
  function RemoveAll(n: map<TabId, TabNode>, ids: seq<TabId>): (r: map<TabId, TabNode>)
    ensures forall k :: k in r <==> k in n && k !in ids
    ensures forall k :: k in r ==> r[k] == n[k]
  {
    if |ids| == 0 then n
    else
      assert forall k :: k in ids <==> k in ids[..|ids| - 1] || k == ids[|ids| - 1];
      RemoveAll(n, ids[..|ids| - 1]) - {ids[|ids| - 1]}
  }

  /** closeSubtree, steps 225-235: drop the collected ids from rootIds and id from its parent's
      children (the parent's expansion is left alone). */
  function DetachSubtree(s: TabState, id: TabId, removed: seq<TabId>): (r: TabState)
    requires id in s.nodes
    ensures r.activeTabId == s.activeTabId && r.rootIds == Without(s.rootIds, removed)
    ensures forall k :: k in r.nodes <==> k in s.nodes && k !in removed
  {
    var node := s.nodes[id];
    var nodes := RemoveAll(s.nodes, removed);
    var roots := Without(s.rootIds, removed);
    if node.parentId.Some? && node.parentId.value in nodes then
      var p := node.parentId.value;
      TabState(nodes[p := nodes[p].(children := Without(nodes[p].children, [id]))], roots, s.activeTabId)
    else
      TabState(nodes, roots, s.activeTabId)
  }

  /** closeSubtree, steps 237-241: when the active node was removed, the parent, else the first
      root left. */
  function SubtreeSuccessor(s: TabState, node: TabNode, removed: seq<TabId>, roots: seq<TabId>): (r: Option<TabId>)
    ensures !(s.activeTabId.Some? && s.activeTabId.value in removed) ==> r == s.activeTabId
    ensures s.activeTabId.Some? && s.activeTabId.value in removed && r.Some? ==>
      r == node.parentId || r.value in roots
    ensures s.activeTabId.Some? && s.activeTabId.value in removed && r.None? ==>
      node.parentId.None? && |roots| == 0
  {
    if s.activeTabId.Some? && s.activeTabId.value in removed then
      if node.parentId.Some? then node.parentId
      else if |roots| > 0 then Some(roots[0])
      else None
    else s.activeTabId
  }

  function CloseSubtree(s: TabState, id: TabId, freshId: TabId): (r: Closed)
    requires Ranked(s.nodes)
    ensures id !in s.nodes ==> r == Closed(s, s.activeTabId, false)
    ensures r.active == r.state.activeTabId
    ensures id in s.nodes && !r.reset ==> id !in r.state.nodes && |r.state.rootIds| > 0
  {
    if id !in s.nodes then Closed(s, s.activeTabId, false)
    else
      var node := s.nodes[id];
      var removed := Collect(s.nodes, id);
      var d := DetachSubtree(s, id, removed);
      var next := SubtreeSuccessor(s, node, removed, d.rootIds);
      Commit(MoveActive(d.nodes, s.activeTabId, next), d.rootIds, next, freshId)
  }
}

/** The store invariants: every operation keeps Valid, and on a well-formed forest every operation
    (createTab with a parent that exists or no parent) keeps the forest well formed. */
module TreeInvariants {
  import opened Tabs
  import opened TabTree
  import opened Forest

  // ---------------------------------------------------------------------------
  // Splice facts.

  /** On a list without repeats, splicing at i drops exactly the element at i and adds ins. */
  lemma {:induction false} SpliceMembers(s: seq<TabId>, i: nat, ins: seq<TabId>)
    requires i < |s| && NoDup(s)
    ensures forall x :: x in Splice(s, i, ins) <==> x in ins || (x in s && x != s[i])
  {
    forall x ensures x in Splice(s, i, ins) <==> x in ins || (x in s && x != s[i]) {
      if x in s && x != s[i] {
        var j :| 0 <= j < |s| && s[j] == x;
        if j < i { assert s[..i][j] == x; } else { assert s[i + 1..][j - i - 1] == x; }
      }
      if x in s[..i] {
        var j :| 0 <= j < i && s[..i][j] == x;
        assert s[j] == x;
      }
      if x in s[i + 1..] {
        var j :| 0 <= j < |s| - i - 1 && s[i + 1..][j] == x;
        assert s[i + 1 + j] == x;
      }
    }
  }

  lemma {:induction false} SpliceNoDup(s: seq<TabId>, i: nat, ins: seq<TabId>)
    requires i < |s| && NoDup(s) && NoDup(ins)
    requires forall x :: x in ins ==> x !in s
    ensures NoDup(Splice(s, i, ins))
  {
    var a, b := s[..i], s[i + 1..];
    assert NoDup(a) && NoDup(b);
    forall x | x in a ensures x !in b {
      var j :| 0 <= j < i && a[j] == x;
      assert s[j] == x;
      forall k | 0 <= k < |b| ensures b[k] != x { assert b[k] == s[i + 1 + k]; }
    }
    forall x | x in a ensures x !in ins {
      var j :| 0 <= j < i && a[j] == x;
      assert s[j] == x;
    }
    NoDupConcat(a, ins);
    forall x | x in a + ins ensures x !in b {
      forall k | 0 <= k < |b| ensures b[k] != x { assert b[k] == s[i + 1 + k]; }
    }
    NoDupConcat(a + ins, b);
  }

  // ---------------------------------------------------------------------------
  // Valid: kept by every operation, for every argument.

  lemma InitialStateValid(id: TabId, url: string)
    ensures Valid(InitialState(id, url), id + 1)
    ensures WellFormed(InitialState(id, url))
  {
  }

  /** createTab keeps Valid when the generated id is the next one and the parent is not the new
      tab itself (a parent that does not exist at all is allowed). */
  lemma CreateTabValid(s: TabState, newId: TabId, parentId: Option<TabId>, url: string, title: Option<string>)
    requires Valid(s, newId) && parentId != Some(newId)
    ensures Valid(CreateTab(s, newId, parentId, url, title), newId + 1)
  {
    var t := CreateTab(s, newId, parentId, url, title);
    if parentId.Some? && parentId.value in t.nodes {
      assert parentId.value in s.nodes;
    }
  }

  lemma ActivateTabValid(s: TabState, id: TabId, nextId: TabId)
    requires Valid(s, nextId)
    ensures Valid(ActivateTab(s, id), nextId)
  {
  }

  lemma UpdateTabMetadataValid(s: TabState, id: TabId, nextId: TabId, title: Option<string>, url: Option<string>)
    requires Valid(s, nextId)
    ensures Valid(UpdateTabMetadata(s, id, title, url), nextId)
  {
  }

  lemma UpdateTabUrlValid(s: TabState, id: TabId, nextId: TabId, url: string)
    requires Valid(s, nextId)
    ensures Valid(UpdateTabUrl(s, id, url), nextId)
  {
  }

  lemma ToggleExpandedValid(s: TabState, id: TabId, nextId: TabId)
    requires Valid(s, nextId)
    ensures Valid(ToggleExpanded(s, id), nextId)
  {
  }

  lemma EnsureRootValid(s: TabState, freshId: TabId)
    requires Valid(s, freshId)
    ensures |s.rootIds| == 0 ==> Valid(EnsureRoot(s, freshId), freshId + 1)
    ensures |s.rootIds| > 0 ==> Valid(EnsureRoot(s, freshId), freshId)
  {
  }

  /** MoveActive keeps "a flagged node is the pointer" when the pointer moves to the successor. */
  lemma MoveActivePointer(n: map<TabId, TabNode>, previous: Option<TabId>, next: Option<TabId>)
    requires forall k :: k in n && n[k].isActive ==> previous == Some(k)
    requires next.None? || next.value !in n ==> forall k :: k in n && n[k].isActive ==> next == Some(k)
    ensures ActiveIsPointer(TabState(MoveActive(n, previous, next), [], next))
  {
  }

  lemma {:induction false} CommitValid(nodes: map<TabId, TabNode>, roots: seq<TabId>, next: Option<TabId>, freshId: TabId)
    requires Keyed(nodes) && Ranked(nodes) && Issued(nodes, freshId)
    requires ActiveIsPointer(TabState(nodes, roots, next))
    ensures var r := Commit(nodes, roots, next, freshId);
      Valid(r.state, if r.reset then freshId + 1 else freshId)
  {
  }

  /** Unlinking keeps ids keyed and ranked and touches no active flag. */
  lemma {:induction false} UnlinkKeeps(s: TabState, id: TabId)
    requires Keyed(s.nodes) && Ranked(s.nodes) && id in s.nodes
    ensures var u := Unlink(s, id);
      && u.nodes.Keys == s.nodes.Keys - {id} && u.activeTabId == s.activeTabId
      && Keyed(u.nodes) && Ranked(u.nodes)
      && forall k :: k in u.nodes ==> u.nodes[k].isActive == s.nodes[k].isActive
  {
    var node := s.nodes[id];
    var u := Unlink(s, id);
    if node.parentId.Some? && node.parentId.value in s.nodes - {id} {
      var p := node.parentId.value;
      var pc := s.nodes[p].children;
      var index := IndexOf(pc, id);
      if index != -1 {
        forall c | c in Splice(pc, index, node.children) ensures c > p {
          assert c in pc[..index] || c in node.children || c in pc[index + 1..];
          if c in node.children {
            assert pc[index] == id && id in s.nodes[p].children;
          } else {
            assert c in pc;
          }
        }
      }
      assert u.nodes == (s.nodes - {id})[p := u.nodes[p]];
    }
  }

  /** closeTab keeps Valid; the reset, when it happens, uses up the generated id. */
  lemma {:induction false} CloseTabValid(s: TabState, id: TabId, freshId: TabId)
    requires Valid(s, freshId)
    ensures var r := CloseTab(s, id, freshId);
      Valid(r.state, if r.reset then freshId + 1 else freshId)
  {
    if id in s.nodes {
      var node := s.nodes[id];
      var u := Unlink(s, id);
      UnlinkKeeps(s, id);
      var nodes := Reparent(u.nodes, node.children, node.parentId);
      var next := CloseSuccessor(s, id, node, u.rootIds);
      assert Keyed(nodes) && Ranked(nodes);
      MoveActivePointer(nodes, s.activeTabId, next);
      CommitValid(MoveActive(nodes, s.activeTabId, next), u.rootIds, next, freshId);
    }
  }

  /** closeSubtree keeps Valid. */
  lemma {:induction false} CloseSubtreeValid(s: TabState, id: TabId, freshId: TabId)
    requires Valid(s, freshId)
    ensures var r := CloseSubtree(s, id, freshId);
      Valid(r.state, if r.reset then freshId + 1 else freshId)
  {
    if id in s.nodes {
      var node := s.nodes[id];
      var removed := Collect(s.nodes, id);
      var d := DetachSubtree(s, id, removed);
      var next := SubtreeSuccessor(s, node, removed, d.rootIds);
      assert Keyed(d.nodes) && Ranked(d.nodes);
      MoveActivePointer(d.nodes, s.activeTabId, next);
      CommitValid(MoveActive(d.nodes, s.activeTabId, next), d.rootIds, next, freshId);
    }
  }
}

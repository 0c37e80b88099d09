/** Worked runs of the store: the bootstrap root R (id 0), a child T1 (id 1) opened from a link to
    "example.com", and a grandchild T2 (id 2). */
module Scenarios {
  import opened Tabs
  import opened JsString
  import opened HttpUrl
  import opened TabTree
  import opened TreeInvariants
  import WellFormedness

  /** R with child T1 with child T2, T2 active. */
  function ThreeLevels(u1: string, u2: string): TabState {
    var s0 := InitialState(0, HOME_URL);
    var s1 := CreateTab(s0, 1, Some(0), u1, None);
    CreateTab(s1, 2, Some(1), u2, None)
  }

  const ROOT: TabNode := TabNode(0, None, HOME_TITLE, HOME_URL, [], true, true)

  function Child(id: TabId, parent: TabId, url: string): TabNode {
    TabNode(id, Some(parent), LOADING_TITLE, url, [], true, true)
  }

  /** The snapshot ThreeLevels builds, written out. */
  function ThreeLevelsNodes(u1: string, u2: string): map<TabId, TabNode> {
    map[0 := ROOT.(children := [1], isActive := false),
        1 := Child(1, 0, u1).(children := [2], isActive := false),
        2 := Child(2, 1, u2)]
  }

  /** R opens T1: R is deactivated, expanded and lists T1; T1 is active. */
  lemma {:induction false} OpenFirstChild(u1: string)
    ensures CreateTab(InitialState(0, HOME_URL), 1, Some(0), u1, None) ==
      TabState(map[0 := ROOT.(children := [1], isActive := false), 1 := Child(1, 0, u1)], [0], Some(1))
  {
    var s1 := CreateTab(InitialState(0, HOME_URL), 1, Some(0), u1, None);
    var n1 := map[0 := ROOT.(children := [1], isActive := false), 1 := Child(1, 0, u1)];
    assert s1.nodes.Keys == n1.Keys && s1.nodes[0] == n1[0] && s1.nodes[1] == n1[1];
  }

  /** T1 opens T2. */
  lemma {:induction false} OpenSecondChild(u1: string, u2: string)
    ensures var n1 := map[0 := ROOT.(children := [1], isActive := false), 1 := Child(1, 0, u1)];
      CreateTab(TabState(n1, [0], Some(1)), 2, Some(1), u2, None) == TabState(ThreeLevelsNodes(u1, u2), [0], Some(2))
  {
    var n1 := map[0 := ROOT.(children := [1], isActive := false), 1 := Child(1, 0, u1)];
    var s2 := CreateTab(TabState(n1, [0], Some(1)), 2, Some(1), u2, None);
    var n2 := ThreeLevelsNodes(u1, u2);
    assert s2.nodes.Keys == n2.Keys && s2.nodes[0] == n2[0] && s2.nodes[1] == n2[1] && s2.nodes[2] == n2[2];
  }

  lemma {:induction false} ThreeLevelsShape(u1: string, u2: string)
    ensures ThreeLevels(u1, u2) == TabState(ThreeLevelsNodes(u1, u2), [0], Some(2))
  {
    OpenFirstChild(u1);
    OpenSecondChild(u1, u2);
  }

  /** The run keeps the forest well formed at every step. */
  lemma {:induction false} ThreeLevelsWellFormed(u1: string, u2: string)
    ensures WellFormed(ThreeLevels(u1, u2))
  {
    var s0 := InitialState(0, HOME_URL);
    InitialStateValid(0, HOME_URL);
    WellFormedness.CreateTabWellFormed(s0, 1, Some(0), u1, None);
    WellFormedness.CreateTabWellFormed(CreateTab(s0, 1, Some(0), u1, None), 2, Some(1), u2, None);
  }

  // Closing T1 goes through Unlink, Reparent and MoveActive; each stage is stated on its own.

  /** T1 (the only child of R, with the only child T2) leaves; T2 takes its place under R. */
  lemma {:induction false} UnlinkMiddle(r: TabNode, m: TabNode, c: TabNode, active: Option<TabId>)
    requires r.children == [1] && m.parentId == Some(0)
    ensures Unlink(TabState(map[0 := r, 1 := m, 2 := c], [0], active), 1) ==
      TabState(map[0 := r.(children := m.children, isExpanded := true), 2 := c], [0], active)
  {
    var s := TabState(map[0 := r, 1 := m, 2 := c], [0], active);
    assert IndexOf(r.children, 1) == 0;
    assert Splice(r.children, 0, m.children) == m.children;
    var u := Unlink(s, 1);
    var n := map[0 := r.(children := m.children, isExpanded := true), 2 := c];
    assert u.nodes.Keys == n.Keys && u.nodes[0] == n[0] && u.nodes[2] == n[2];
  }

  /** T2's parent pointer moves to R. */
  lemma {:induction false} ReparentToRoot(r: TabNode, c: TabNode)
    ensures Reparent(map[0 := r, 2 := c], [2], Some(0)) == map[0 := r, 2 := c.(parentId := Some(0))]
  {
    var m := Reparent(map[0 := r, 2 := c], [2], Some(0));
    var n := map[0 := r, 2 := c.(parentId := Some(0))];
    assert m.Keys == n.Keys && m[0] == n[0] && m[2] == n[2];
  }

  /** Closing the middle node T1 promotes T2 to a child of R; T1 was not active, so T2 stays
      active and is the id returned. */
  lemma {:induction false} CloseMiddleReparents(u1: string, u2: string)
    ensures CloseTab(ThreeLevels(u1, u2), 1, 3) ==
      Closed(TabState(map[0 := ROOT.(children := [2], isActive := false), 2 := Child(2, 0, u2)], [0], Some(2)),
             Some(2), false)
  {
    ThreeLevelsShape(u1, u2);
    CloseMiddleNodes(u1, u2);
  }

  lemma {:induction false} CloseMiddleNodes(u1: string, u2: string)
    ensures CloseTab(TabState(ThreeLevelsNodes(u1, u2), [0], Some(2)), 1, 3) ==
      Closed(TabState(map[0 := ROOT.(children := [2], isActive := false), 2 := Child(2, 0, u2)], [0], Some(2)),
             Some(2), false)
  {
    var n3 := ThreeLevelsNodes(u1, u2);
    UnlinkMiddle(n3[0], n3[1], n3[2], Some(2));
    ReparentToRoot(ROOT.(children := [2], isActive := false), Child(2, 1, u2));
    var n := map[0 := ROOT.(children := [2], isActive := false), 2 := Child(2, 0, u2)];
    var m := MoveActive(n, Some(2), Some(2));
    assert m.Keys == n.Keys && m[0] == n[0] && m[2] == n[2];
  }

  /** ThreeLevels after the user activates T1 again, written out. */
  lemma {:induction false} ReactivateMiddle(u1: string, u2: string)
    ensures ActivateTab(TabState(ThreeLevelsNodes(u1, u2), [0], Some(2)), 1) ==
      TabState(map[0 := ROOT.(children := [1], isActive := false),
                   1 := Child(1, 0, u1).(children := [2]),
                   2 := Child(2, 1, u2).(isActive := false)], [0], Some(1))
  {
    var s3 := ActivateTab(TabState(ThreeLevelsNodes(u1, u2), [0], Some(2)), 1);
    var n3 := map[0 := ROOT.(children := [1], isActive := false),
                  1 := Child(1, 0, u1).(children := [2]),
                  2 := Child(2, 1, u2).(isActive := false)];
    assert s3.nodes.Keys == n3.Keys && s3.nodes[0] == n3[0] && s3.nodes[1] == n3[1] && s3.nodes[2] == n3[2];
  }

  /** The end-to-end run: after T2 is opened under T1, the user activates T1 again and closes it;
      activation goes to its parent R, T2 moves up under R, and R is the id returned. */
  lemma {:induction false} CloseActiveMiddleHandsToParent(u1: string, u2: string)
    ensures CloseTab(ActivateTab(ThreeLevels(u1, u2), 1), 1, 3) ==
      Closed(TabState(map[0 := ROOT.(children := [2]), 2 := Child(2, 0, u2).(isActive := false)], [0], Some(0)),
             Some(0), false)
  {
    ThreeLevelsShape(u1, u2);
    ReactivateMiddle(u1, u2);
    CloseActiveMiddleNodes(u1, u2);
  }

  lemma {:induction false} CloseActiveMiddleNodes(u1: string, u2: string)
    ensures var n := map[0 := ROOT.(children := [1], isActive := false),
                         1 := Child(1, 0, u1).(children := [2]),
                         2 := Child(2, 1, u2).(isActive := false)];
      CloseTab(TabState(n, [0], Some(1)), 1, 3) ==
      Closed(TabState(map[0 := ROOT.(children := [2]), 2 := Child(2, 0, u2).(isActive := false)], [0], Some(0)),
             Some(0), false)
  {
    UnlinkMiddle(ROOT.(children := [1], isActive := false), Child(1, 0, u1).(children := [2]),
                 Child(2, 1, u2).(isActive := false), Some(1));
    ReparentToRoot(ROOT.(children := [2], isActive := false), Child(2, 1, u2).(isActive := false));
    var before := map[0 := ROOT.(children := [2], isActive := false), 2 := Child(2, 0, u2).(isActive := false)];
    var n := map[0 := ROOT.(children := [2]), 2 := Child(2, 0, u2).(isActive := false)];
    var m := MoveActive(before, Some(1), Some(0));
    assert m.Keys == n.Keys && m[0] == n[0] && m[2] == n[2];
  }

  /** closeSubtree(T1) collects T1 and then T2. */
  lemma {:induction false} CollectMiddle(u1: string, u2: string)
    requires Ranked(ThreeLevelsNodes(u1, u2))
    ensures Collect(ThreeLevelsNodes(u1, u2), 1) == [1, 2]
  {
    var n := ThreeLevelsNodes(u1, u2);
    assert Collect(n, 2) == [2];
    assert CollectAll(n, [2], 1) == [2];
  }

  /** With T1 and T2 gone, R is left with no children and nothing else changes yet. */
  lemma {:induction false} DetachMiddle(u1: string, u2: string)
    ensures DetachSubtree(TabState(ThreeLevelsNodes(u1, u2), [0], Some(2)), 1, [1, 2]) ==
      TabState(map[0 := ROOT.(isActive := false)], [0], Some(2))
  {
    var d := DetachSubtree(TabState(ThreeLevelsNodes(u1, u2), [0], Some(2)), 1, [1, 2]);
    assert Without([0], [1, 2]) == [0];
    assert Without([1], [1]) == [];
    assert d.nodes.Keys == {0} && d.nodes[0] == ROOT.(isActive := false);
  }

  lemma {:induction false} ThreeLevelsRanked(u1: string, u2: string)
    ensures Ranked(ThreeLevelsNodes(u1, u2))
  {
  }

  /** Closing T1's subtree removes T1 and T2; R, left alone, becomes active again, which puts the
      store back in its initial state. */
  lemma {:induction false} CloseSubtreeOfMiddle(u1: string, u2: string)
    ensures CloseSubtree(ThreeLevels(u1, u2), 1, 3) == Closed(InitialState(0, HOME_URL), Some(0), false)
  {
    ThreeLevelsShape(u1, u2);
    ThreeLevelsRanked(u1, u2);
    CloseSubtreeOfMiddleNodes(u1, u2);
  }

  lemma {:induction false} CloseSubtreeOfMiddleNodes(u1: string, u2: string)
    requires Ranked(ThreeLevelsNodes(u1, u2))
    ensures CloseSubtree(TabState(ThreeLevelsNodes(u1, u2), [0], Some(2)), 1, 3) ==
      Closed(InitialState(0, HOME_URL), Some(0), false)
  {
    var s := TabState(ThreeLevelsNodes(u1, u2), [0], Some(2));
    CollectMiddle(u1, u2);
    DetachMiddle(u1, u2);
    assert SubtreeSuccessor(s, s.nodes[1], [1, 2], [0]) == Some(0);
    var m := MoveActive(map[0 := ROOT.(isActive := false)], Some(2), Some(0));
    assert m.Keys == {0} && m[0] == ROOT;
  }

  /** Closing the only tab resets to a fresh Home root, the new active tab. */
  lemma CloseLastTabSelfHeals()
    ensures var r := CloseTab(InitialState(0, HOME_URL), 0, 1);
      && r.reset && r.active == Some(1) && r.state == InitialState(1, HOME_URL)
      && r.state.nodes[1].url == HOME_URL && r.state.nodes[1].isActive
  {
    var s := InitialState(0, HOME_URL);
    assert IndexOf(s.rootIds, 0) == 0;
  }
}

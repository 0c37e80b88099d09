# acacia tab tree, modelled in Dafny

acacia is an Electron browser that shows its tabs as a tree: opening a link from a page opens a
child tab of that page, and closing a tab either promotes its children into its place or removes
its whole subtree. This project models the core of that program:

- **The tab store** (`src/renderer/stores/tabStore.ts`). It is an arena-style forest: a map from
  tab id to node, the ordered list of roots, and the active tab. Its eight actions are modelled
  twice. `TabTree` gives each as a pure transition on a `TabState` snapshot. `TabStore.Store` is a
  class whose fields `nodes`, `rootIds` and `activeTabId` the methods rewrite step by step, as the
  source does (`delete`, `splice`, `forEach`). Each method is proved to produce the snapshot the
  matching `TabTree` function describes.
- **Store invariants.** `Valid` holds after every action, whatever its arguments:
  - every node is filed under its own id;
  - a child's id is larger than its parent's;
  - every id was issued by the generator;
  - a node flagged active is the one `activeTabId` names.

  `WellFormed` is the full forest invariant: every root and child is stored, each node sits in
  exactly one list, parent links agree with the lists, the forest is non-empty, and exactly one
  node is active. It is preserved by every action, with `createTab` given no parent or an
  existing one. `StoreLaws` states what each action does to the snapshot: placement, the
  successor rule, the empty-tree reset, no-ops on unknown ids, idempotence and round trips.
  `Scenarios` works through concrete runs.
- **The tab data model** (`src/common/tabs.ts`), in `Tabs`.
- **The shell** (`src/renderer/App.tsx`):
  - `HttpUrl.EnsureHttpUrl`, the address normaliser;
  - `Flatten`, the pre-order walk `flattenTabs`, as a method proved against a recursive
    specification;
  - `Shell.App`, the handlers that drive the store and the webviews.
- **The webview bridge** (`src/renderer/components/webview/WebviewManager.tsx`), in `Bridge`.
  Each mounted webview is a `WebviewItem` with two flags, `ready` and `programmatic`. Each event
  handler is specified by a function from the old flags to the new flags and the calls it makes,
  in order. The central rule is when a navigation is classified as the user following a link (it
  is cancelled, and a child tab is opened) and when it is let through.
- **The page script** (`src/preload/webview.ts`), in `PageScript`. It covers the link-interception
  predicates, the click decision, and the messages posted on init, hashchange and popstate.

Tab ids are natural numbers drawn from a counter, `TabStore.Store.nextId`, in place of
`crypto.randomUUID`. Because a tab is only ever listed under an older tab, a child's id always
exceeds its parent's. That fact gives termination of the recursive walks and rules out cycles.
Everything the Electron webview answers (`getURL`, `canGoBack`, `canGoForward`, `isLoading`) is a
parameter. Everything the shell tells a webview is returned as a list of calls.

## Model

| member | source | states |
|---|---|---|
| TabTree.IndexOf | src/renderer/stores/tabStore.ts:149 | indexOf: -1 exactly when the id is absent, otherwise the first position holding it |
| TabTree.Without | src/renderer/stores/tabStore.ts:225 | filter: keeps exactly the ids not in the removed list, and keeps a list free of repeats |
| TabTree.WithoutSingle | src/renderer/stores/tabStore.ts:225 | filter on one element: kept exactly when it is not removed |
| TabTree.WithoutConcat | src/renderer/stores/tabStore.ts:225 | filter distributes over concatenation, so the kept ids keep their original order |
| TabTree.Deactivate | src/renderer/stores/tabStore.ts:55-57 | same keys; only the node activeTabId names loses its active flag |
| TabTree.Reparent | src/renderer/stores/tabStore.ts:167-174 | same keys; exactly the listed children get the closed node's parentId, other nodes unchanged |
| TabTree.MoveActive | src/renderer/stores/tabStore.ts:182-188 | same keys; when the successor exists it becomes the flagged node in place of the previous one |
| TabTree.Collect | src/renderer/stores/tabStore.ts:211-216 | the collection starts with the id itself and holds only ids at least as large |
| TabTree.CollectAll | src/renderer/stores/tabStore.ts:215 | collecting a list of children yields only ids above the parent |
| TabTree.RemoveAll | src/renderer/stores/tabStore.ts:221-223 | deleting the collected ids keeps exactly the other keys with their nodes unchanged |
| TabTree.InitialState | src/renderer/stores/tabStore.ts:6-25 | buildInitialState: one node under the given id, a parentless, childless, active root titled Home at the url, the only root and the active tab |
| TabTree.CreateTab | src/renderer/stores/tabStore.ts:40-88 | the keys gain exactly the new id, which becomes activeTabId with the given parent and url; rootIds is unchanged or gains the new id at its end |
| TabTree.ActivateTab | src/renderer/stores/tabStore.ts:89-105 | keys and rootIds unchanged; activeTabId becomes the id when it is stored, and stays otherwise |
| TabTree.UpdateTabMetadata | src/renderer/stores/tabStore.ts:106-120 | keys, rootIds and activeTabId unchanged; a stored node takes each of title and url that is given |
| TabTree.UpdateTabUrl | src/renderer/stores/tabStore.ts:121-135 | keys, rootIds and activeTabId unchanged; a stored node takes the url |
| TabTree.ToggleExpanded | src/renderer/stores/tabStore.ts:265-279 | keys, rootIds and activeTabId unchanged; a stored node's isExpanded flips |
| TabTree.EnsureRoot | src/renderer/stores/tabStore.ts:280-285 | the result always has a root, and a tree that has one is left as it is |
| TabTree.Unlink | src/renderer/stores/tabStore.ts:141-165 | the closed id leaves the keys and nothing else does; activeTabId is kept, and so is rootIds when the node had a parent |
| TabTree.CloseSuccessor | src/renderer/stores/tabStore.ts:176-180 | closing another node keeps activeTabId; closing the active one picks its parent, one of its children or one of the roots left, and none only when all three are missing |
| TabTree.Commit | src/renderer/stores/tabStore.ts:190-202 | resets exactly when no root is left; the returned id is the new activeTabId and the result always has a root; otherwise the computed nodes, roots and successor are kept |
| TabTree.CloseTab | src/renderer/stores/tabStore.ts:136-203 | an unknown id changes nothing and returns activeTabId; the returned id is always the new activeTabId; without a reset the closed id is gone and a root is left |
| TabTree.DetachSubtree | src/renderer/stores/tabStore.ts:221-235 | exactly the collected ids leave the keys; rootIds is filtered by them; activeTabId is kept |
| TabTree.SubtreeSuccessor | src/renderer/stores/tabStore.ts:237-241 | an active tab outside the removed ids is kept; otherwise the parent or one of the roots left, and none only when both are missing |
| TabTree.CloseSubtree | src/renderer/stores/tabStore.ts:204-264 | an unknown id changes nothing and returns activeTabId; the returned id is always the new activeTabId; without a reset the closed id is gone and a root is left |
| TabStore.Store.constructor | src/renderer/stores/tabStore.ts:6-25 | the store starts as buildInitialState: one active Home root, well formed |
| TabStore.Store.GenerateTabId | src/renderer/stores/tabStore.ts:4 | hands out the next counter value, never issued before |
| TabStore.Store.Reset | src/renderer/stores/tabStore.ts:190-194 | set(buildInitialState()): the whole tree becomes a fresh, well-formed Home root under a new id |
| TabStore.Store.CreateTab | src/renderer/stores/tabStore.ts:40-88 | returns the generated id; the new snapshot is TabTree.CreateTab of the old one; keeps Valid, and keeps WellFormed when the parent is absent or stored |
| TabStore.Store.ActivateTab | src/renderer/stores/tabStore.ts:89-105 | the new snapshot is TabTree.ActivateTab of the old; keeps Valid and WellFormed |
| TabStore.Store.UpdateTabMetadata | src/renderer/stores/tabStore.ts:106-120 | the new snapshot is TabTree.UpdateTabMetadata of the old; keeps Valid and WellFormed |
| TabStore.Store.UpdateTabUrl | src/renderer/stores/tabStore.ts:121-135 | the new snapshot is TabTree.UpdateTabUrl of the old; keeps Valid and WellFormed |
| TabStore.Store.ToggleExpanded | src/renderer/stores/tabStore.ts:265-279 | the new snapshot is TabTree.ToggleExpanded of the old; keeps Valid and WellFormed |
| TabStore.Store.EnsureRoot | src/renderer/stores/tabStore.ts:280-285 | resets (using one id) only an empty root list; the result is well formed or unchanged |
| TabStore.Store.CloseTab | src/renderer/stores/tabStore.ts:136-203 | new snapshot and returned id are those of TabTree.CloseTab; an id is used only by the reset; keeps Valid and WellFormed |
| TabStore.Store.CollectInto | src/renderer/stores/tabStore.ts:211-216 | the accumulator grows by exactly the pre-order collection of the id |
| TabStore.Store.CloseSubtree | src/renderer/stores/tabStore.ts:204-264 | new snapshot and returned id are those of TabTree.CloseSubtree; keeps Valid and WellFormed |
| TabStore.CloseTabPreserves | src/renderer/stores/tabStore.ts:136-203 | closeTab keeps Valid (the reset consumes one id) and keeps a well-formed forest well formed |
| TabStore.CloseTabFlags | src/renderer/stores/tabStore.ts:141-174 | after unlinking and reparenting, only the node activeTabId names can still be flagged |
| TabStore.CloseSubtreePreserves | src/renderer/stores/tabStore.ts:204-264 | closeSubtree keeps Valid and keeps a well-formed forest well formed |
| TabStore.CloseSubtreeFlags | src/renderer/stores/tabStore.ts:221-235 | after the subtree is detached, only the node activeTabId names can still be flagged |
| TabStore.RemoveAllStep | src/renderer/stores/tabStore.ts:221-223 | deleting one more collected id removes exactly that key |
| TreeInvariants.InitialStateValid | src/renderer/stores/tabStore.ts:6-25 | the bootstrap state is Valid for the next id and well formed |
| TreeInvariants.CreateTabValid | src/renderer/stores/tabStore.ts:40-88 | createTab keeps Valid, even under a parent that is not stored |
| TreeInvariants.ActivateTabValid | src/renderer/stores/tabStore.ts:89-105 | activateTab keeps Valid |
| TreeInvariants.UpdateTabMetadataValid | src/renderer/stores/tabStore.ts:106-120 | updateTabMetadata keeps Valid |
| TreeInvariants.UpdateTabUrlValid | src/renderer/stores/tabStore.ts:121-135 | updateTabUrl keeps Valid |
| TreeInvariants.ToggleExpandedValid | src/renderer/stores/tabStore.ts:265-279 | toggleExpanded keeps Valid |
| TreeInvariants.EnsureRootValid | src/renderer/stores/tabStore.ts:280-285 | ensureRoot keeps Valid, consuming an id only on reset |
| TreeInvariants.MoveActivePointer | src/renderer/stores/tabStore.ts:182-188 | moving the flag to the successor keeps "a flagged node is the pointer" |
| TreeInvariants.CommitValid | src/renderer/stores/tabStore.ts:190-202 | committing, or resetting when no root is left, keeps Valid |
| TreeInvariants.UnlinkKeeps | src/renderer/stores/tabStore.ts:141-165 | unlinking drops exactly the closed key and keeps ids keyed, ranked and flags untouched |
| TreeInvariants.CloseTabValid | src/renderer/stores/tabStore.ts:136-203 | closeTab keeps Valid for any id |
| TreeInvariants.CloseSubtreeValid | src/renderer/stores/tabStore.ts:204-264 | closeSubtree keeps Valid for any id |
| TreeInvariants.SpliceMembers | src/renderer/stores/tabStore.ts:152 | splice(i, 1, ...ins) on a repeat-free list drops exactly the element at i and adds ins |
| TreeInvariants.SpliceNoDup | src/renderer/stores/tabStore.ts:152 | splicing new ids into a repeat-free list keeps it repeat-free |
| WellFormedness.LinkedWellFormed | src/common/tabs.ts:13-17 | a linked forest with a root and exactly one active node is well formed |
| WellFormedness.SameLinksWellFormed | src/renderer/stores/tabStore.ts:89-135 | a step that keeps every link and leaves exactly one active node keeps the forest well formed |
| WellFormedness.ActivateTabWellFormed | src/renderer/stores/tabStore.ts:89-105 | activateTab keeps a well-formed forest well formed |
| WellFormedness.UpdateTabMetadataWellFormed | src/renderer/stores/tabStore.ts:106-120 | updateTabMetadata keeps a well-formed forest well formed |
| WellFormedness.UpdateTabUrlWellFormed | src/renderer/stores/tabStore.ts:121-135 | updateTabUrl keeps a well-formed forest well formed |
| WellFormedness.ToggleExpandedWellFormed | src/renderer/stores/tabStore.ts:265-279 | toggleExpanded keeps a well-formed forest well formed |
| WellFormedness.EnsureRootWellFormed | src/renderer/stores/tabStore.ts:280-285 | ensureRoot leaves a well-formed forest exactly as it was |
| WellFormedness.AddLeafChildren | src/renderer/stores/tabStore.ts:59-71 | adding a childless node under an older parent keeps children lists repeat-free and pointing back |
| WellFormedness.AddLeafParents | src/renderer/stores/tabStore.ts:59-77 | adding a node under its stored parent, or as a new root, keeps the parent links sound |
| WellFormedness.CreateTabShape | src/renderer/stores/tabStore.ts:40-77 | createTab adds a childless node pointing at parentId and appends it to the stored parent's children, else to rootIds; no other link changes |
| WellFormedness.CreateTabLinks | src/renderer/stores/tabStore.ts:40-77 | createTab under no parent or a stored one keeps the forest linked |
| WellFormedness.CreateTabActive | src/renderer/stores/tabStore.ts:55-59 | after createTab the new tab is the one active node |
| WellFormedness.CreateTabWellFormed | src/renderer/stores/tabStore.ts:40-88 | createTab under no parent or a stored one keeps the forest well formed |
| WellFormedness.UnlinkUnderParent | src/renderer/stores/tabStore.ts:141-159 | the node leaves the map and the parent's children get its children in its place, parent forced expanded |
| WellFormedness.UnlinkAtRoot | src/renderer/stores/tabStore.ts:160-165 | a root leaves the map and rootIds gets its children in its place |
| WellFormedness.CloseTabAfterUnlink | src/renderer/stores/tabStore.ts:167-188 | after unlinking, closeTab changes only the promoted children's parentId and active flags |
| WellFormedness.CloseTabUnderParentShape | src/renderer/stores/tabStore.ts:141-174 | closing a child: its children, in order, take its exact place under its parent and point to that parent |
| WellFormedness.CloseTabRootShape | src/renderer/stores/tabStore.ts:160-174 | closing a root: its children, in order, take its exact place in rootIds and become roots |
| WellFormedness.SpliceLinked | src/renderer/stores/tabStore.ts:146-174 | the child-case splice and reparenting keep the forest linked |
| WellFormedness.RootSpliceLinks | src/renderer/stores/tabStore.ts:160-174 | the root-case splice and reparenting keep the forest linked |
| WellFormedness.MoveActiveExactlyOne | src/renderer/stores/tabStore.ts:182-188 | moving the flag to a stored successor leaves exactly one active node |
| WellFormedness.CloseTabActive | src/renderer/stores/tabStore.ts:176-188 | on a well-formed forest the closeTab successor exists, and it is the only active node |
| WellFormedness.CloseTabUnderParentWellFormed | src/renderer/stores/tabStore.ts:136-203 | closing a node that has a parent keeps the forest well formed |
| WellFormedness.CloseTabRootWellFormed | src/renderer/stores/tabStore.ts:136-203 | closing a root keeps the forest well formed |
| WellFormedness.CloseTabWellFormed | src/renderer/stores/tabStore.ts:136-203 | closeTab of any id keeps a well-formed forest well formed |
| WellFormedness.CloseSubtreeShape | src/renderer/stores/tabStore.ts:209-235 | closeSubtree keeps exactly the uncollected nodes with their fields, and removes only the id from its parent's children |
| WellFormedness.DetachShape | src/renderer/stores/tabStore.ts:221-235 | detaching drops the collected ids from the map and rootIds and the id from its parent's list; the parent's expansion is untouched |
| WellFormedness.PruneLinked | src/renderer/stores/tabStore.ts:221-235 | removing a closed subtree keeps the forest linked |
| WellFormedness.CloseSubtreeActive | src/renderer/stores/tabStore.ts:237-249 | after closeSubtree the successor is the only active node |
| WellFormedness.CloseSubtreeSuccessorSurvives | src/renderer/stores/tabStore.ts:237-241 | unless the tree resets, the closeSubtree successor is a surviving node |
| WellFormedness.CloseSubtreeWellFormed | src/renderer/stores/tabStore.ts:204-264 | closeSubtree of any id keeps a well-formed forest well formed |
| Forest.CollectClosed | src/renderer/stores/tabStore.ts:211-216 | every child of a collected node is collected |
| Forest.CollectParent | src/renderer/stores/tabStore.ts:211-216 | every collected id other than the start is a child of a collected node |
| Forest.AncestorsLinear | src/common/tabs.ts:5 | the ancestors of a node along parentId links form a chain |
| Forest.CollectIsSubtree | src/renderer/stores/tabStore.ts:211-219 | on a well-formed forest the collection is exactly the id and its descendants |
| Forest.SiblingSubtreesDisjoint | src/renderer/stores/tabStore.ts:215 | distinct siblings (or roots) have disjoint collections |
| Forest.CollectAllNoDup | src/renderer/stores/tabStore.ts:215 | collecting a repeat-free list of siblings repeats no id |
| Forest.CollectNoDup | src/renderer/stores/tabStore.ts:211-219 | on a well-formed forest the collection lists each id once |
| Forest.CollectSubtreeClosed | src/renderer/stores/tabStore.ts:211-219 | the collection is closed downwards, and upwards below the id |
| StoreLaws.EnsureRootIdempotent | src/renderer/stores/tabStore.ts:280-285 | ensureRoot is the identity on a non-empty root list and the bootstrap state otherwise; calling it twice equals once |
| StoreLaws.CreateTabActivates | src/renderer/stores/tabStore.ts:40-59 | the new id is fresh, becomes activeTabId and is the only node flagged; title defaults to "Loading…"; childless and expanded |
| StoreLaws.CreateTabPlacement | src/renderer/stores/tabStore.ts:53-77 | with a stored parent the id is appended to its children, the parent expanded, rootIds unchanged; otherwise appended to rootIds; others only lose the active flag |
| StoreLaws.DanglingParentLeavesStaleRoot | src/renderer/stores/tabStore.ts:45-165 | a tab created under an unstored parent is listed as a root; closing it takes the parent branch and leaves its id in rootIds, breaking WellFormed |
| StoreLaws.CloseActiveLeaf | src/renderer/stores/tabStore.ts:141-202 | closing an active leaf hands activation to its parent, which loses the leaf and is expanded |
| StoreLaws.CloseActiveRootLeaf | src/renderer/stores/tabStore.ts:160-202 | closing an active childless last root hands activation to the first root |
| StoreLaws.CreateThenCloseChild | src/renderer/stores/tabStore.ts:40-203 | opening a child of p and closing it gives back the old tree, except p is expanded and active |
| StoreLaws.CreateThenCloseRoot | src/renderer/stores/tabStore.ts:40-203 | opening a root and closing it gives back the old tree, but the first root becomes active |
| StoreLaws.ActivateTabLaw | src/renderer/stores/tabStore.ts:89-105 | unknown id: no-op; otherwise activeTabId and the flag move to the id and nothing else changes |
| StoreLaws.UpdateTabMetadataLaw | src/renderer/stores/tabStore.ts:106-120 | unknown id: no-op; otherwise only that node's title and url change, each only when given |
| StoreLaws.UpdateTabMetadataIdempotent | src/renderer/stores/tabStore.ts:106-120 | applying the same metadata twice is applying it once |
| StoreLaws.UpdateTabUrlIsMetadata | src/renderer/stores/tabStore.ts:121-135 | updateTabUrl is updateTabMetadata with only a url |
| StoreLaws.ToggleExpandedLaw | src/renderer/stores/tabStore.ts:265-279 | unknown id: no-op; otherwise only isExpanded of that node flips; toggling twice is the identity |
| StoreLaws.CloseTabReturnsActive | src/renderer/stores/tabStore.ts:136-202 | unknown id: nothing changes and activeTabId is returned; always returns the new activeTabId |
| StoreLaws.CloseTabSuccessor | src/renderer/stores/tabStore.ts:176-180 | closing the active node hands over to its parent, else its first child, else the first root left; otherwise activeTabId is kept |
| StoreLaws.CloseTabKeepsOtherActive | src/renderer/stores/tabStore.ts:176-188 | closing a node that is not active leaves every surviving active flag as it was |
| StoreLaws.CloseTabResetsOnlyLastTab | src/renderer/stores/tabStore.ts:190-194 | on a well-formed tree closeTab resets exactly when closing the only, childless root; the result is a fresh Home root |
| StoreLaws.CloseTabExactlyOneActive | src/renderer/stores/tabStore.ts:176-202 | on a well-formed tree the returned id is stored and is the only active node afterwards |
| StoreLaws.RootInSubtree | src/renderer/stores/tabStore.ts:225 | a root is collected only when it is the closed id itself |
| StoreLaws.CloseSubtreeRemovesDescendants | src/renderer/stores/tabStore.ts:209-225 | closeSubtree removes exactly the id and its descendants from the map, and only the id from rootIds |
| StoreLaws.CloseSubtreeSuccessor | src/renderer/stores/tabStore.ts:237-263 | when the active node was removed, the parent, else the first root left; otherwise activeTabId is kept; the returned id is the new activeTabId |
| StoreLaws.OnlyRootLeft | src/renderer/stores/tabStore.ts:225-255 | no root survives the filter exactly when the id was the only root |
| StoreLaws.CloseSubtreeResetsOnlyLastRoot | src/renderer/stores/tabStore.ts:251-255 | closeSubtree resets exactly when the id is the only root, to a fresh active Home root |
| Scenarios.OpenFirstChild | src/renderer/stores/tabStore.ts:40-88 | from the bootstrap root, opening a child gives the expected two-node snapshot |
| Scenarios.OpenSecondChild | src/renderer/stores/tabStore.ts:40-88 | opening a grandchild gives the expected three-level snapshot |
| Scenarios.ThreeLevelsShape | src/renderer/stores/tabStore.ts:40-88 | the three-level run produces the written-out snapshot |
| Scenarios.ThreeLevelsWellFormed | src/renderer/stores/tabStore.ts:6-88 | the run keeps the forest well formed |
| Scenarios.UnlinkMiddle | src/renderer/stores/tabStore.ts:141-159 | removing the middle node puts its child list in its place under the root |
| Scenarios.ReparentToRoot | src/renderer/stores/tabStore.ts:167-174 | the grandchild's parent pointer moves to the root |
| Scenarios.CloseMiddleReparents | src/renderer/stores/tabStore.ts:136-203 | closing the non-active middle node promotes its child under the root; the active tab stays and is returned |
| Scenarios.CloseMiddleNodes | src/renderer/stores/tabStore.ts:136-203 | the same close, on the written-out snapshot |
| Scenarios.ReactivateMiddle | src/renderer/stores/tabStore.ts:89-105 | activating the middle node moves the flag from the grandchild |
| Scenarios.CloseActiveMiddleHandsToParent | src/renderer/stores/tabStore.ts:176-202 | closing the active middle node hands activation to the root, which is returned |
| Scenarios.CloseActiveMiddleNodes | src/renderer/stores/tabStore.ts:176-202 | the same close, on the written-out snapshot |
| Scenarios.CollectMiddle | src/renderer/stores/tabStore.ts:211-219 | collecting the middle node yields it, then the grandchild |
| Scenarios.DetachMiddle | src/renderer/stores/tabStore.ts:221-235 | detaching that collection leaves the root alone, with no children |
| Scenarios.CloseSubtreeOfMiddle | src/renderer/stores/tabStore.ts:204-264 | closing the middle node's subtree leaves the root, active again: the initial state |
| Scenarios.CloseSubtreeOfMiddleNodes | src/renderer/stores/tabStore.ts:204-264 | the same close, on the written-out snapshot |
| Scenarios.CloseLastTabSelfHeals | src/renderer/stores/tabStore.ts:190-194 | closing the only tab resets to a fresh active Home root under a new id |
| JsString.TrimStart | src/renderer/App.tsx:26 | drops exactly the leading white space |
| JsString.TrimEnd | src/renderer/App.tsx:26 | drops exactly the trailing white space |
| JsString.Trim | src/renderer/App.tsx:26 | the result is a slice of the input with only white space before and after it, has no white space at either end, and is empty exactly when the input is all white space |
| JsString.TrimOfTrimmed | src/renderer/App.tsx:26 | trimming a trimmed string changes nothing |
| JsString.TrimIdempotent | src/renderer/App.tsx:26 | trim is idempotent |
| HttpUrl.PrefixedHasScheme | src/renderer/App.tsx:35 | anything behind "https://" matches the scheme test |
| HttpUrl.SchemeRun | src/renderer/App.tsx:31 | the longest run of [a-zA-Z0-9+.-] characters at the start of the input |
| HttpUrl.HasSchemeDecided | src/renderer/App.tsx:31 | the scheme test holds exactly when the input starts with a letter and "://" follows its longest run of scheme characters |
| HttpUrl.EnsureHttpUrl | src/renderer/App.tsx:25-36 | null exactly for blank input; a trimmed input with a scheme is returned as is, otherwise behind "https://"; every result has a scheme and is trimmed |
| HttpUrl.EnsureHttpUrlIdempotent | src/renderer/App.tsx:25-36 | normalising a normalised address changes nothing |
| HttpUrl.HomeUrlIsNormal | src/common/tabs.ts:19 | the home page address already normalises to itself |
| HttpUrl.NoColonGetsHttps | src/renderer/App.tsx:31-35 | an address without a colon gets the https scheme |
| Flatten.Visit | src/renderer/App.tsx:13-18 | an unstored id adds nothing; a stored one starts the walk with its node |
| Flatten.VisitAll | src/renderer/App.tsx:17 | no children add nothing; a stored first child opens the walk of the children |
| Flatten.Flattened | src/renderer/App.tsx:20 | no roots give an empty list; a stored first root opens the flattened list |
| Flatten.VisitInto | src/renderer/App.tsx:13-18 | visit pushes exactly the walk of the id onto the list |
| Flatten.VisitChildrenInto | src/renderer/App.tsx:17 | node.children.forEach(visit) pushes the walks of the children in order |
| Flatten.FlattenTabs | src/renderer/App.tsx:10-23 | the list built is the pre-order walk of rootIds in order |
| Flatten.VisitIsCollect | src/renderer/App.tsx:13-18 | on a well-formed forest the walk visits exactly the ids closeSubtree collects |
| Flatten.RootAncestor | src/common/tabs.ts:3-17 | every stored node of a well-formed forest descends from a root |
| Flatten.FlattenedMembers | src/renderer/App.tsx:20 | an id is listed exactly when it is in the walk of one of the roots |
| Flatten.FlattenedNoDup | src/renderer/App.tsx:10-23 | walking distinct roots lists no id twice |
| Flatten.FlattenedStored | src/renderer/App.tsx:14-16 | the walk lists only stored nodes, each under its own id |
| Flatten.FlattenListsEachNodeOnce | src/renderer/App.tsx:10-23 | on a well-formed forest flattenTabs lists every stored node, and each exactly once |
| Shell.Created | src/renderer/stores/tabStore.ts:40-88 | the created tab is stored, titled as requested (or "Loading…"), and active |
| Shell.OpenLinkRequestAsWritten | src/renderer/App.tsx:99-103 | the request handleOpenLink builds as written: a child of the source, titled with the garbled placeholder, at the address as given when it is blank and otherwise at the normalised address (trimmed, with a scheme) |
| Shell.AsWrittenLinkTitleDiffers | src/renderer/App.tsx:102 | a tab opened from a link, as written, gets a different title from the store's own placeholder |
| Shell.OpenLinkRequest | src/renderer/App.tsx:99-103 | a child of the source tab at ensureHttpUrl(url), or at url when that is blank, with the store's placeholder title |
| Shell.LinkTitleIsStorePlaceholder | src/renderer/App.tsx:102 | with the corrected request the link's tab gets "Loading…", like a tab created without a title |
| Shell.NewRootTabRequest | src/renderer/App.tsx:133-135 | a root at HOME_URL titled Home |
| Shell.NewRootTabIsHomeNode | src/renderer/App.tsx:133-135 | the new root tab is the bootstrap's Home node under the new id, appended to rootIds and active |
| Shell.UserNavigationOpensChild | src/renderer/components/webview/WebviewManager.tsx:199-200 | a link navigation is cancelled and opens exactly one new, active last child of the source tab at the normalised target; the forest stays well formed |
| Shell.FlaggedLoadOpensNothing | src/renderer/App.tsx:79-97 | a load the app flagged never produces a link opening |
| Shell.StaleFlagSwallowsNextLink | src/renderer/App.tsx:137-151 | a flag raised with no navigation following lets the next navigation that reaches will-navigate through instead of opening a tab |
| Shell.App.constructor | src/renderer/App.tsx:52-58 | the store's Home tab, no webview, its url in the address bar, idle navigation state |
| Shell.App.MarkProgrammaticNavigation | src/renderer/App.tsx:79-87 | returns the registered element, if any, with its programmatic flag raised |
| Shell.App.HandleAddressSubmit | src/renderer/App.tsx:89-97 | with an active tab, a normalisable address and an element: flag, load the normalised url, record it as the tab's url; otherwise nothing changes |
| Shell.App.LoadInTab | src/renderer/App.tsx:93-96 | flag, load and updateTabUrl when the tab has an element; nothing otherwise |
| Shell.App.HandleOpenLink | src/renderer/App.tsx:99-103 | exactly one new tab, built from OpenLinkRequest (the corrected title) under the generated id; keeps the forest well formed |
| Shell.App.HandleMetadata | src/renderer/App.tsx:105-107 | the store snapshot becomes updateTabMetadata with both title and url |
| Shell.App.HandleNavigation | src/renderer/App.tsx:109-114 | the tab's url always follows; the address bar only for the active tab |
| Shell.App.HandleNavigationStateChange | src/renderer/App.tsx:116-123 | reports from tabs other than the active one are ignored |
| Shell.App.HandleNewRootTab | src/renderer/App.tsx:133-135 | one new Home root under the generated id, active; keeps the forest well formed |
| Shell.App.HandleGoBack | src/renderer/App.tsx:137-143 | with an element: flagged whether or not it can go back, told to go back only when it can |
| Shell.App.HandleGoForward | src/renderer/App.tsx:145-151 | with an element: flagged whether or not it can go forward, told to go forward only when it can |
| Shell.App.HandleReload | src/renderer/App.tsx:153-157 | with an element: flagged, then reloaded |
| Shell.App.HandleGoHome | src/renderer/App.tsx:159-165 | with an element: flag, load HOME_URL and record it as the active tab's url |
| Shell.App.OnActiveTabChanged | src/renderer/App.tsx:65-77 | the address bar shows the active tab's url and the navigation state is cleared; with no active tab only the state is cleared |
| Shell.App.Dispatch | src/renderer/App.tsx:207-216 | each bridge callback reaches its handler: link opening creates one tab, metadata and navigation update the store, others leave it; a navigation report moves the address bar only for the active tab and a navigation-state report replaces the shown state only for the active tab, every other output leaving both alone |
| Bridge.NavigationStateOutput | src/renderer/components/webview/WebviewManager.tsx:109-118 | one navigation-state report exactly when ready, none before |
| Bridge.ReportUrl | src/renderer/components/webview/WebviewManager.tsx:156-158 | nothing for an empty url, otherwise exactly one report of that url for the tab |
| Bridge.DomReady | src/renderer/components/webview/WebviewManager.tsx:162-172 | ready, then mute and webview:init, then the url when there is one, then the navigation state |
| Bridge.WillNavigate | src/renderer/components/webview/WebviewManager.tsx:179-201 | empty target: nothing; otherwise the flag is cleared, and only a ready, unflagged surface cancels and opens the link |
| Bridge.DidNavigate | src/renderer/components/webview/WebviewManager.tsx:151-160 | nothing before ready; then getURL (or the event url when getURL is missing) if non-empty, then the navigation state |
| Bridge.Loading | src/renderer/components/webview/WebviewManager.tsx:174-177 | at most one output: a report of the surface's navigation state for the tab, exactly when ready |
| Bridge.IpcMessageOutput | src/renderer/components/webview/WebviewManager.tsx:126-149 | other channels and missing payloads are ignored; every output is addressed to the item's tab; only navigation also reports the state |
| Bridge.Cleanup | src/renderer/components/webview/WebviewManager.tsx:223-224 | cleanup clears ready and leaves the programmatic flag alone |
| Bridge.ProgrammaticFlagConsumedOnce | src/renderer/components/webview/WebviewManager.tsx:194-200 | a flagged navigation is let through and the next unflagged one is opened as a link |
| Bridge.BeforeReadyNeverALink | src/renderer/components/webview/WebviewManager.tsx:189-192 | before ready no navigation is a link, and a non-empty target clears the flag |
| Bridge.CleanupDisarmsLinkInterception | src/renderer/components/webview/WebviewManager.tsx:211-225 | after cleanup every will-navigate is let through |
| Bridge.BothInterceptionsOpenTwice | src/renderer/components/webview/WebviewManager.tsx:136-200 | a url reported by both the page script and will-navigate calls onLinkOpen twice; will-navigate fires after the script's preventDefault only when the page navigates again itself |
| Bridge.IpcNotGatedOnReady | src/renderer/components/webview/WebviewManager.tsx:126-149 | a link-clicked message is forwarded whether or not the surface is ready |
| Bridge.WebviewItem.constructor | src/renderer/components/webview/WebviewManager.tsx:106-107 | a fresh element: not ready, not flagged |
| Bridge.WebviewItem.EmitNavigationState | src/renderer/components/webview/WebviewManager.tsx:109-118 | emits NavigationStateOutput of the current flags |
| Bridge.WebviewItem.HandleDomReady | src/renderer/components/webview/WebviewManager.tsx:162-172 | new flags and calls are DomReady of the old flags |
| Bridge.WebviewItem.HandleWillNavigate | src/renderer/components/webview/WebviewManager.tsx:179-201 | new flags and calls are WillNavigate of the old flags |
| Bridge.WebviewItem.HandleDidNavigate | src/renderer/components/webview/WebviewManager.tsx:151-160 | flags unchanged; calls are DidNavigate of the flags |
| Bridge.WebviewItem.HandleLoading | src/renderer/components/webview/WebviewManager.tsx:174-177 | calls are Loading of the flags |
| Bridge.WebviewItem.HandleIpcMessage | src/renderer/components/webview/WebviewManager.tsx:126-149 | calls are IpcMessageOutput of the flags |
| Bridge.WebviewItem.Mount | src/renderer/components/webview/WebviewManager.tsx:120-124 | the element is registered under its tab |
| Bridge.WebviewItem.Unmount | src/renderer/components/webview/WebviewManager.tsx:211-225 | the tab is unregistered and the flags become Cleanup of the old ones |
| Bridge.WebviewManager.constructor | src/renderer/App.tsx:61 | webviewRefs starts empty |
| Bridge.WebviewManager.Register | src/renderer/components/webview/WebviewManager.tsx:29-34 | the map gains (or replaces) exactly the tab's entry |
| Bridge.WebviewManager.Unregister | src/renderer/components/webview/WebviewManager.tsx:36-41 | the map loses exactly the tab's entry |
| Bridge.WebviewManager.OnActiveTabChange | src/renderer/components/webview/WebviewManager.tsx:43-58 | the active tab's state is reported only when its element is registered and ready |
| PageScript.UnmodifiedMeansNoKeyHeld | src/preload/webview.ts:14-15 | a click is unmodified exactly when meta, ctrl, shift and alt are all up |
| PageScript.OrdinaryLinkIntercepted | src/preload/webview.ts:17-25 | an href starting with neither white space, "#" nor "javascript:", without target=_blank, is not bypassed, and an unmodified click on it posts the link |
| PageScript.Metadata | src/preload/webview.ts:47-54 | notify(): a metadata message with the location and tab id, titled document.title, or "Untitled" only if it is nullish, which a DOM document's title never is |
| PageScript.UntitledPageReportsEmptyTitle | src/preload/webview.ts:51 | a page without a title reports the empty string |
| PageScript.ClickDecision | src/preload/webview.ts:30-40 | a message is posted exactly for an unmodified click on an anchor that is not bypassed; it carries anchor.href and the current tab id |
| PageScript.NavigationThenMetadata | src/preload/webview.ts:60-68 | a navigation report, then metadata titled document.title (the "Untitled" fallback applies only to a nullish title, which a DOM document never has), both with the location and the tab id |
| PageScript.BlankHrefBypassed | src/preload/webview.ts:19 | a blank or white-space-only href is bypassed whatever target and rel say |
| PageScript.FragmentTestIsUntrimmed | src/preload/webview.ts:20 | " #top" is intercepted: the fragment test looks at the untrimmed href |
| PageScript.ModifiedClickNeverPosts | src/preload/webview.ts:14-37 | a click with any modifier key never posts |
| PageScript.Script.constructor | src/preload/webview.ts:8 | the script starts with no tab id |
| PageScript.Script.OnInit | src/preload/webview.ts:80-89 | the id is stored first; navigation, then metadata, both carrying the new id |
| PageScript.Script.OnLocationChange | src/preload/webview.ts:60-68 | the hashchange and popstate listeners: navigation, then metadata, with the current tab id |
| PageScript.Script.OnMetadataChange | src/preload/webview.ts:70-77 | the title observer: one metadata message titled document.title; a page without a title reports the empty string, and "Untitled" only stands for a nullish title |
| PageScript.Script.OnClick | src/preload/webview.ts:27-44 | the default is prevented and the message posted exactly when ClickDecision posts one |

## Left out

- React scheduling, effect dependency lists and re-render timing. Each handler runs atomically on the state it reads.
- The DOM (`closest`, `MutationObserver`, `document.title`, `window.location`) and the
  Electron webview's own behaviour. The page's location and title, the anchor a click reaches,
  and the answers of `getURL`, `canGoBack`, `canGoForward` and `isLoading` are parameters. The
  shell's commands to a webview (`loadURL`, `goBack`, `goForward`, `reload`, `setAudioMuted`,
  `send`) are returned as lists.
- `console.debug` calls.
- `crypto.randomUUID`. Ids come from a counter, so an id is never the empty string, and the
  source's truthiness tests on ids (`if (parentId)`, `activeTabId ?? ''`) become `Some?` tests.
- TabStore.Store.CreateTab: requires `parentId != Some(nextId)`. A caller cannot name a UUID the
  generator has not yet produced. A parent that is not stored at all is still allowed, and its
  consequence is exposed by StoreLaws.DanglingParentLeavesStaleRoot.
- Shell.App.HandleOpenLink: requires `sourceTabId < store.nextId` for the same reason: the
  source is a tab the store created. It builds its request with the corrected
  Shell.OpenLinkRequest (the store's "Loading…" title), not the garbled title at
  src/renderer/App.tsx:102. The code as written is Shell.OpenLinkRequestAsWritten (see Findings).
- Shell.App.Dispatch: requires the same of a link-opening output, and likewise promises the
  corrected title for the tab a link opens, not the garbled one as written.
- JsString.Trim: removes a small explicit set of white-space characters, not JavaScript's full
  Unicode set.
- HttpUrl.EnsureHttpUrl: the regular expression is written out as a predicate, not run by a
  regex engine.
- `handleCloseTab`, `handleCloseSubtree`, `activateTab` and `toggleExpanded` as passed to the tree
  view (src/renderer/App.tsx:125-131, 186-189). They only forward to the store actions, which are
  modelled.
- The page script's `emitToHost` transport and the `ipc-message` argument list. Messages are
  values of `PageScript.WebviewEvent`.
- The page title's None case: `document.title` is never null or undefined, so the
  `?? "Untitled"` fallback (src/preload/webview.ts:51, 86) cannot be reached from a browser. The
  model keeps it as an input the script never receives.
- The DOMContentLoaded wiring of the page script's listeners (src/preload/webview.ts:91-94).
  The `document` DOMContentLoaded listener that notify()s (src/preload/webview.ts:56-58) is
  registered from inside the window's DOMContentLoaded handler, after that event has been
  dispatched, so it is not modelled as a source of metadata messages.
- src/main/index.ts and src/preload/index.ts (Electron process bootstrap and IPC wrappers) are
  not part of this model.

## Findings

| source | as written | input that shows it | evidently intended | confidence | as-written member | corrected member |
|---|---|---|---|---|---|---|
| src/renderer/App.tsx:102 | handleOpenLink passes the title 'Loadingâ€¦', the UTF-8 bytes of "Loading…" read back as Windows-1252 | any link opened from a page, e.g. handleOpenLink(source, "example.com"): the new tab is titled "Loadingâ€¦", while the store's own default (tabStore.ts:46) is "Loading…" | the same "Loading…" placeholder the store uses | not executed | Shell.AsWrittenLinkTitleDiffers | Shell.LinkTitleIsStorePlaceholder |

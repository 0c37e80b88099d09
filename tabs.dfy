/** The tab data model shared by the store, the shell and the webview bridge. */
module Tabs {

  /** Tab identifiers. The store allocates them from a counter (see TabStore.Store.nextId),
      which stands for the random UUIDs of the original. */
  type TabId = nat

  datatype Option<T> = None | Some(value: T) {
    function GetOr(default: T): T {
      match this
      case Some(v) => v
      case None => default
    }
  }

  /** One entry of the tab tree. A `parentId` of None is the only root marker. */
  datatype TabNode = TabNode(
    id: TabId,
    parentId: Option<TabId>,
    title: string,
    url: string,
    children: seq<TabId>,
    isActive: bool,
    isExpanded: bool)

  /** The store snapshot: an arena of nodes, the ordered roots and the active pointer. */
  datatype TabState = TabState(
    nodes: map<TabId, TabNode>,
    rootIds: seq<TabId>,
    activeTabId: Option<TabId>)

  const HOME_URL: string := "https://www.wikipedia.org/"

  /** Title of the bootstrap / reset root. */
  const HOME_TITLE: string := "Home"

  /** Title a new tab gets when its creator supplies none. */
  const LOADING_TITLE: string := "Loading\U{2026}"
}

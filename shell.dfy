/** The shell (src/renderer/App.tsx): it owns the tab store, the webview manager's map, the address
    bar text and the navigation state shown in the toolbar, and wires the bridge's calls into store
    operations. */
module Shell {
  import opened Tabs
  import opened JsString
  import opened HttpUrl
  import opened TabTree
  import opened TreeInvariants
  import opened WellFormedness
  import TabStore
  import opened Bridge

  /** The commands the shell sends to a surface, in order. MarkProgrammatic(t) stands for setting
      __acaciaProgrammatic on the element registered for t. */
  datatype SurfaceCall = MarkProgrammatic(tabId: TabId) | LoadUrl(url: string) | GoBack | GoForward | Reload

  /** The arguments of a createTab call. */
  datatype CreateRequest = CreateRequest(parentId: Option<TabId>, url: string, title: Option<string>)

  /** The tab a request creates, in the store snapshot s, under the generated id newId. */
  function Created(s: TabState, newId: TabId, req: CreateRequest): (t: TabState)
    ensures req.parentId != Some(newId) ==>
      newId in t.nodes && t.nodes[newId].title == req.title.GetOr(LOADING_TITLE) && t.activeTabId == Some(newId)
  {
    TabTree.CreateTab(s, newId, req.parentId, req.url, req.title)
  }

  // ---------------------------------------------------------------------------
  // handleOpenLink and handleNewRootTab.

  /** The title handleOpenLink passes as written: the UTF-8 bytes of "Loading…" read back as
      Windows-1252, i.e. "Loading" followed by U+00E2 U+20AC U+00A6. */
  const GARBLED_LOADING_TITLE: string := "Loading\U{E2}\U{20AC}\U{A6}"

  /** handleOpenLink's createTab request as written. */
  function OpenLinkRequestAsWritten(sourceTabId: TabId, url: string): (r: CreateRequest)
    ensures r.parentId == Some(sourceTabId) && r.title == Some(GARBLED_LOADING_TITLE)
    ensures |Trim(url)| == 0 ==> r.url == url
    ensures |Trim(url)| > 0 ==> HasScheme(r.url) && IsTrimmed(r.url) && Some(r.url) == EnsureHttpUrl(url)
  {
    CreateRequest(Some(sourceTabId), EnsureHttpUrl(url).GetOr(url), Some(GARBLED_LOADING_TITLE))
  }

  /** A tab opened from a link, as written, shows a different placeholder from the one the store
      gives every tab created without a title. */
  lemma AsWrittenLinkTitleDiffers(s: TabState, newId: TabId, sourceTabId: TabId, url: string)
    requires sourceTabId != newId
    ensures var fromLink := Created(s, newId, OpenLinkRequestAsWritten(sourceTabId, url));
      var untitled := Created(s, newId, CreateRequest(Some(sourceTabId), url, None));
      && fromLink.nodes[newId].title == GARBLED_LOADING_TITLE
      && untitled.nodes[newId].title == LOADING_TITLE
      && fromLink.nodes[newId].title != untitled.nodes[newId].title
  {
    GarbledTitleDiffers();
  }

  lemma GarbledTitleDiffers()
    ensures GARBLED_LOADING_TITLE != LOADING_TITLE
  {
    assert GARBLED_LOADING_TITLE[7] != LOADING_TITLE[7];
  }

  /** handleOpenLink's createTab request, with the store's own placeholder title: a child of the
      source tab at the normalised address, or at the address as given when it is blank. */
  function OpenLinkRequest(sourceTabId: TabId, url: string): (r: CreateRequest)
    ensures r.parentId == Some(sourceTabId) && r.title == Some(LOADING_TITLE)
    ensures |Trim(url)| == 0 ==> r.url == url
    ensures |Trim(url)| > 0 ==> HasScheme(r.url) && IsTrimmed(r.url) && Some(r.url) == EnsureHttpUrl(url)
  {
    CreateRequest(Some(sourceTabId), EnsureHttpUrl(url).GetOr(url), Some(LOADING_TITLE))
  }

  /** A tab opened from a link shows the same placeholder as a tab created without a title. */
  lemma LinkTitleIsStorePlaceholder(s: TabState, newId: TabId, sourceTabId: TabId, url: string)
    requires sourceTabId != newId
    ensures var fromLink := Created(s, newId, OpenLinkRequest(sourceTabId, url));
      var untitled := Created(s, newId, CreateRequest(Some(sourceTabId), url, None));
      fromLink.nodes[newId].title == untitled.nodes[newId].title == LOADING_TITLE
  {
  }

  /** handleNewRootTab's request: a root at the home page titled Home. */
  function NewRootTabRequest(): (r: CreateRequest)
    ensures r.parentId.None? && r.url == HOME_URL && r.title == Some(HOME_TITLE)
  {
    CreateRequest(None, HOME_URL, Some(HOME_TITLE))
  }

  /** The new root tab is the bootstrap's Home node under the new id, appended to rootIds. */
  lemma NewRootTabIsHomeNode(s: TabState, newId: TabId)
    ensures var t := Created(s, newId, NewRootTabRequest());
      && t.nodes[newId] == InitialState(newId, HOME_URL).nodes[newId]
      && t.rootIds == s.rootIds + [newId] && t.activeTabId == Some(newId)
  {
  }

  // ---------------------------------------------------------------------------
  // The link path end to end.

  /** A will-navigate the bridge classifies as a link, on a well-formed tree, opens exactly one
      new tab: the last child of the source tab, at the normalised target, and the active one. */
  lemma UserNavigationOpensChild(s: TabState, f: Flags, tab: TabId, target: string, newId: TabId)
    requires WellFormed(s) && Issued(s.nodes, newId) && tab in s.nodes
    requires f.ready && !f.programmatic && |Trim(target)| > 0
    ensures var r := WillNavigate(f, tab, target);
      var t := Created(s, newId, OpenLinkRequest(tab, target));
      && r.out == [PreventDefault, LinkOpen(tab, target)]
      && WellFormed(t)
      && t.nodes.Keys == s.nodes.Keys + {newId}
      && t.nodes[tab].children == s.nodes[tab].children + [newId]
      && t.nodes[newId].parentId == Some(tab)
      && Some(t.nodes[newId].url) == EnsureHttpUrl(target)
      && t.activeTabId == Some(newId)
  {
    assert target != "";
    var url := EnsureHttpUrl(target).value;
    assert OpenLinkRequest(tab, target) == CreateRequest(Some(tab), url, Some(LOADING_TITLE));
    assert newId !in s.nodes;
    CreateTabShape(s, newId, Some(tab), url, Some(LOADING_TITLE));
    CreateTabWellFormed(s, newId, Some(tab), url, Some(LOADING_TITLE));
  }

  /** A load the app flagged produces no link, so the shell creates no tab for it. */
  lemma FlaggedLoadOpensNothing(f: Flags, tab: TabId, target: string)
    requires f.ready
    ensures var r := WillNavigate(f.(programmatic := true), tab, target);
      forall i :: 0 <= i < |r.out| ==> !r.out[i].LinkOpen?
  {
  }

  /** Back (or forward) on a surface with no history still raises the flag, and no navigation
      consumes it; the next navigation that reaches will-navigate is then let through in place
      instead of being opened as a child tab. (A plain link click is still opened through the page
      script's link-clicked message, which the flag does not gate.) */
  lemma StaleFlagSwallowsNextLink(f: Flags, tab: TabId, target: string)
    requires f.ready && target != ""
    ensures var afterBack := f.(programmatic := true);
      WillNavigate(afterBack, tab, target).out == [] && WillNavigate(f.(programmatic := false), tab, target).out != []
  {
  }

  // ---------------------------------------------------------------------------
  // The shell.

  class App {
    const store: TabStore.Store
    const webviews: WebviewManager
    var addressValue: string
    var navigationState: NavigationState

    ghost predicate Valid()
      reads this, store
    {
      store.Valid()
    }

    /** The element registered for a tab, as a frame. */
    ghost function SurfaceOf(tabId: Option<TabId>): set<object>
      reads this, webviews
    {
      if tabId.Some? && tabId.value in webviews.refs then {webviews.refs[tabId.value]} else {}
    }

    /** The store's initial Home tab, no webview yet, its url in the address bar. */
    constructor ()
      ensures Valid() && WellFormed(store.State())
      ensures fresh(store) && fresh(webviews) && webviews.refs == map[]
      ensures addressValue == store.nodes[store.activeTabId.value].url == HOME_URL
      ensures navigationState == IDLE
    {
      store := new TabStore.Store();
      webviews := new WebviewManager();
      addressValue := HOME_URL;
      navigationState := IDLE;
    }

    /** markProgrammaticNavigation: raises the flag on the tab's registered element, if any. */
    method MarkProgrammaticNavigation(tabId: TabId) returns (webview: Option<WebviewItem>)
      modifies SurfaceOf(Some(tabId))
      ensures webview.Some? <==> tabId in webviews.refs
      ensures webview.Some? ==>
        && webview.value == webviews.refs[tabId]
        && webview.value.State() == old(webview.value.State()).(programmatic := true)
    {
      if tabId !in webviews.refs {
        return None;
      }
      var element := webviews.refs[tabId];
      element.programmatic := true;
      return Some(element);
    }

    /** handleAddressSubmit: with an active tab, an address that normalises and a registered
        element, the element is flagged, then told to load the normalised address, and the active
        tab's url becomes that address; otherwise nothing happens. */
    method HandleAddressSubmit() returns (calls: seq<SurfaceCall>)
      requires Valid()
      modifies store, SurfaceOf(store.activeTabId)
      ensures Valid() && store.nextId == old(store.nextId)
      ensures webviews.refs == old(webviews.refs) && addressValue == old(addressValue)
      ensures var active := old(store.activeTabId);
        var normalized := EnsureHttpUrl(old(addressValue));
        var go := active.Some? && normalized.Some? && active.value in old(webviews.refs);
        && (go ==>
              && calls == [MarkProgrammatic(active.value), LoadUrl(normalized.value)]
              && webviews.refs[active.value].State() == old(webviews.refs[active.value].State()).(programmatic := true)
              && store.State() == TabTree.UpdateTabUrl(old(store.State()), active.value, normalized.value))
        && (!go ==> calls == [] && store.State() == old(store.State()) && unchanged(SurfaceOf(active)))
      ensures old(WellFormed(store.State())) ==> WellFormed(store.State())
    {
      if store.activeTabId.None? {
        return [];
      }
      var activeTabId := store.activeTabId.value;
      var normalized := EnsureHttpUrl(addressValue);
      if normalized.None? {
        return [];
      }
      calls := LoadInTab(activeTabId, normalized.value);
    }

    /** The last steps of handleAddressSubmit: flag the tab's element, load url in it and record
        url as the tab's address; nothing when the tab has no element. */
    method LoadInTab(tabId: TabId, url: string) returns (calls: seq<SurfaceCall>)
      requires Valid()
      modifies store, SurfaceOf(Some(tabId))
      ensures Valid() && store.nextId == old(store.nextId)
      ensures webviews.refs == old(webviews.refs) && addressValue == old(addressValue)
      ensures tabId in webviews.refs ==>
        && calls == [MarkProgrammatic(tabId), LoadUrl(url)]
        && webviews.refs[tabId].State() == old(webviews.refs[tabId].State()).(programmatic := true)
        && store.State() == TabTree.UpdateTabUrl(old(store.State()), tabId, url)
      ensures tabId !in webviews.refs ==>
        calls == [] && store.State() == old(store.State()) && unchanged(SurfaceOf(Some(tabId)))
      ensures old(WellFormed(store.State())) ==> WellFormed(store.State())
    {
      ghost var refs := webviews.refs;
      ghost var before := store.State();
      ghost var address := addressValue;
      var webview := MarkProgrammaticNavigation(tabId);
      if webview.None? {
        return [];
      }
      assert store.State() == before && store.Valid();
      assert addressValue == address && webviews.refs == refs;
      calls := [MarkProgrammatic(tabId), LoadUrl(url)];
      ghost var element := webview.value;
      store.UpdateTabUrl(tabId, url);
      assert webviews.refs == refs && element == refs[tabId] && addressValue == address;
    }

    /** handleOpenLink: one new tab, a child of the source tab at the normalised address. The
        source is a tab the store created, so it is not the id the store generates next. */
    method HandleOpenLink(sourceTabId: TabId, url: string) returns (newId: TabId)
      requires Valid() && sourceTabId < store.nextId
      modifies store
      ensures Valid()
      ensures newId == old(store.nextId) && store.nextId == newId + 1
      ensures store.State() == Created(old(store.State()), newId, OpenLinkRequest(sourceTabId, url))
      ensures old(WellFormed(store.State())) && sourceTabId in old(store.nodes) ==> WellFormed(store.State())
    {
      var request := OpenLinkRequest(sourceTabId, url);
      newId := store.CreateTab(request.parentId, request.url, request.title);
    }

    /** handleMetadata. */
    method HandleMetadata(tabId: TabId, title: string, url: string)
      requires Valid()
      modifies store
      ensures Valid() && store.nextId == old(store.nextId)
      ensures store.State() == TabTree.UpdateTabMetadata(old(store.State()), tabId, Some(title), Some(url))
      ensures old(WellFormed(store.State())) ==> WellFormed(store.State())
    {
      store.UpdateTabMetadata(tabId, Some(title), Some(url));
    }

    /** handleNavigation: the tab's url always follows; the address bar only for the active tab. */
    method HandleNavigation(tabId: TabId, url: string)
      requires Valid()
      modifies store, this`addressValue
      ensures Valid() && store.nextId == old(store.nextId)
      ensures store.State() == TabTree.UpdateTabUrl(old(store.State()), tabId, url)
      ensures addressValue == if old(store.activeTabId) == Some(tabId) then url else old(addressValue)
      ensures old(WellFormed(store.State())) ==> WellFormed(store.State())
    {
      store.UpdateTabUrl(tabId, url);
      if store.activeTabId == Some(tabId) {
        addressValue := url;
      }
    }

    /** handleNavigationStateChange: reports from tabs other than the active one are ignored. */
    method HandleNavigationStateChange(tabId: TabId, state: NavigationState)
      modifies this`navigationState
      ensures navigationState == if store.activeTabId == Some(tabId) then state else old(navigationState)
    {
      if store.activeTabId == Some(tabId) {
        navigationState := state;
      }
    }

    /** handleNewRootTab: a new Home root, which becomes active. */
    method HandleNewRootTab() returns (newId: TabId)
      requires Valid()
      modifies store
      ensures Valid()
      ensures newId == old(store.nextId) && store.nextId == newId + 1
      ensures store.State() == Created(old(store.State()), newId, NewRootTabRequest())
      ensures old(WellFormed(store.State())) ==> WellFormed(store.State())
    {
      var request := NewRootTabRequest();
      newId := store.CreateTab(request.parentId, request.url, request.title);
    }

    /** handleGoBack: with an active tab whose element is registered, the element is flagged
        whether or not it can go back, and told to go back only when it can. */
    method HandleGoBack(canGoBack: bool) returns (calls: seq<SurfaceCall>)
      modifies SurfaceOf(store.activeTabId)
      ensures var active := store.activeTabId;
        var go := active.Some? && active.value in webviews.refs;
        && (go ==>
              && calls == [MarkProgrammatic(active.value)] + (if canGoBack then [GoBack] else [])
              && webviews.refs[active.value].State() == old(webviews.refs[active.value].State()).(programmatic := true))
        && (!go ==> calls == [] && unchanged(SurfaceOf(active)))
    {
      calls := [];
      if store.activeTabId.None? {
        return;
      }
      var webview := MarkProgrammaticNavigation(store.activeTabId.value);
      if webview.None? {
        return;
      }
      calls := [MarkProgrammatic(store.activeTabId.value)];
      if canGoBack {
        calls := calls + [GoBack];
      }
    }

    /** handleGoForward, like handleGoBack. */
    method HandleGoForward(canGoForward: bool) returns (calls: seq<SurfaceCall>)
      modifies SurfaceOf(store.activeTabId)
      ensures var active := store.activeTabId;
        var go := active.Some? && active.value in webviews.refs;
        && (go ==>
              && calls == [MarkProgrammatic(active.value)] + (if canGoForward then [GoForward] else [])
              && webviews.refs[active.value].State() == old(webviews.refs[active.value].State()).(programmatic := true))
        && (!go ==> calls == [] && unchanged(SurfaceOf(active)))
    {
      calls := [];
      if store.activeTabId.None? {
        return;
      }
      var webview := MarkProgrammaticNavigation(store.activeTabId.value);
      if webview.None? {
        return;
      }
      calls := [MarkProgrammatic(store.activeTabId.value)];
      if canGoForward {
        calls := calls + [GoForward];
      }
    }

    /** handleReload: flag, then reload, when an element is registered for the active tab. */
    method HandleReload() returns (calls: seq<SurfaceCall>)
      modifies SurfaceOf(store.activeTabId)
      ensures var active := store.activeTabId;
        var go := active.Some? && active.value in webviews.refs;
        && (go ==>
              && calls == [MarkProgrammatic(active.value), Reload]
              && webviews.refs[active.value].State() == old(webviews.refs[active.value].State()).(programmatic := true))
        && (!go ==> calls == [] && unchanged(SurfaceOf(active)))
    {
      calls := [];
      if store.activeTabId.None? {
        return;
      }
      var webview := MarkProgrammaticNavigation(store.activeTabId.value);
      if webview.None? {
        return;
      }
      calls := [MarkProgrammatic(store.activeTabId.value), Reload];
    }

    /** handleGoHome: like an address submission of the home page. */
    method HandleGoHome() returns (calls: seq<SurfaceCall>)
      requires Valid()
      modifies store, SurfaceOf(store.activeTabId)
      ensures Valid() && store.nextId == old(store.nextId)
      ensures var active := old(store.activeTabId);
        var go := active.Some? && active.value in webviews.refs;
        && (go ==>
              && calls == [MarkProgrammatic(active.value), LoadUrl(HOME_URL)]
              && webviews.refs[active.value].State() == old(webviews.refs[active.value].State()).(programmatic := true)
              && store.State() == TabTree.UpdateTabUrl(old(store.State()), active.value, HOME_URL))
        && (!go ==> calls == [] && store.State() == old(store.State()) && unchanged(SurfaceOf(active)))
      ensures old(WellFormed(store.State())) ==> WellFormed(store.State())
    {
      calls := [];
      if store.activeTabId.None? {
        return;
      }
      var activeTabId := store.activeTabId.value;
      var webview := MarkProgrammaticNavigation(activeTabId);
      if webview.None? {
        return;
      }
      calls := [MarkProgrammatic(activeTabId), LoadUrl(HOME_URL)];
      store.UpdateTabUrl(activeTabId, HOME_URL);
    }

    /** The two effects on the active tab: when it changes, the address bar shows its url and the
        navigation state is cleared; with no active tab the navigation state is cleared. */
    method OnActiveTabChanged()
      modifies this`addressValue, this`navigationState
      ensures var active := store.activeTabId;
        && (active.Some? && active.value in store.nodes ==>
              addressValue == store.nodes[active.value].url && navigationState == IDLE)
        && (active.None? ==> addressValue == old(addressValue) && navigationState == IDLE)
        && (active.Some? && active.value !in store.nodes ==>
              addressValue == old(addressValue) && navigationState == old(navigationState))
    {
      if store.activeTabId.Some? && store.activeTabId.value in store.nodes {
        addressValue := store.nodes[store.activeTabId.value].url;
        navigationState := IDLE;
      }
      if store.activeTabId.None? {
        navigationState := IDLE;
      }
    }

    /** The manager's callbacks: onLinkOpen, onMetadata, onNavigation and onNavigationStateChange
        go to the matching handler; the other outputs are commands on the surface itself. */
    method Dispatch(o: Output) returns (newTab: Option<TabId>)
      requires Valid()
      requires o.LinkOpen? ==> o.sourceTabId < store.nextId
      modifies this, store
      ensures Valid()
      ensures newTab.Some? <==> o.LinkOpen?
      ensures o.LinkOpen? ==>
        newTab == Some(old(store.nextId))
        && store.State() == Created(old(store.State()), newTab.value, OpenLinkRequest(o.sourceTabId, o.url))
      ensures o.MetadataReport? ==>
        store.State() == TabTree.UpdateTabMetadata(old(store.State()), o.tabId, Some(o.title), Some(o.url))
      ensures o.NavigationReport? ==> store.State() == TabTree.UpdateTabUrl(old(store.State()), o.tabId, o.url)
      ensures !o.LinkOpen? && !o.MetadataReport? && !o.NavigationReport? ==> store.State() == old(store.State())
      ensures !o.LinkOpen? ==> store.nextId == old(store.nextId)
      ensures o.NavigationReport? ==>
        addressValue == if old(store.activeTabId) == Some(o.tabId) then o.url else old(addressValue)
      ensures !o.NavigationReport? ==> addressValue == old(addressValue)
      ensures o.NavigationStateReport? ==>
        navigationState == if old(store.activeTabId) == Some(o.tabId) then o.state else old(navigationState)
      ensures !o.NavigationStateReport? ==> navigationState == old(navigationState)
      ensures old(WellFormed(store.State())) && (o.LinkOpen? ==> o.sourceTabId in old(store.nodes)) ==> WellFormed(store.State())
    {
      newTab := None;
      match o {
        case LinkOpen(source, url) =>
          var id := HandleOpenLink(source, url);
          newTab := Some(id);
        case MetadataReport(tabId, title, url) =>
          HandleMetadata(tabId, title, url);
        case NavigationReport(tabId, url) =>
          HandleNavigation(tabId, url);
        case NavigationStateReport(tabId, state) =>
          HandleNavigationStateChange(tabId, state);
        case _ =>
      }
    }
  }
}

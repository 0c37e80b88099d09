/** The webview bridge (src/renderer/components/webview/WebviewManager.tsx): one WebviewItem per
    tab owns a surface and two flags, `ready` and `programmatic`, and turns the surface's events
    into calls on the shell (onLinkOpen, onNavigation, onMetadata, onNavigationStateChange) and
    commands on the surface. Each handler is specified by a function from the old flags to the new
    flags and the calls it makes, in order. */
module Bridge {
  import opened Tabs
  import opened PageScript

  datatype NavigationState = NavigationState(canGoBack: bool, canGoForward: bool, isLoading: bool)

  /** The state the shell shows while nothing has been reported. */
  const IDLE: NavigationState := NavigationState(false, false, false)

  /** What the surface answers when a handler asks: getURL() (None when the surface offers no
      getURL), and canGoBack() / canGoForward() / isLoading() (false when missing). */
  datatype HostView = HostView(currentUrl: Option<string>, navigation: NavigationState)

  /** The calls a handler makes, in the order it makes them. */
  datatype Output =
    | LinkOpen(sourceTabId: TabId, url: string)                    // onLinkOpen
    | MetadataReport(tabId: TabId, title: string, url: string)     // onMetadata
    | NavigationReport(tabId: TabId, url: string)                  // onNavigation
    | NavigationStateReport(tabId: TabId, state: NavigationState)  // onNavigationStateChange
    | MuteAudio                                                    // element.setAudioMuted(true)
    | SendInit(tabId: TabId)                                       // element.send("webview:init", {tabId})
    | PreventDefault                                               // navigateEvent.preventDefault()

  /** The first argument of an ipc-message: a page-script event, or an object with another type. */
  datatype Payload = Event(event: WebviewEvent) | UnknownType

  datatype IpcMessage = IpcMessage(channel: string, payload: Option<Payload>)

  const EVENT_CHANNEL: string := "webview:event"

  /** readyRef.current (mirrored in __acaciaReady) and __acaciaProgrammatic. */
  datatype Flags = Flags(ready: bool, programmatic: bool)

  datatype Reaction = Reaction(flags: Flags, out: seq<Output>)

  /** The tab an output is addressed to, when it names one. */
  function Addressee(o: Output): Option<TabId> {
    match o
    case LinkOpen(t, _) => Some(t)
    case MetadataReport(t, _, _) => Some(t)
    case NavigationReport(t, _) => Some(t)
    case NavigationStateReport(t, _) => Some(t)
    case SendInit(t) => Some(t)
    case _ => None
  }

  /** Every output that names a tab names `tab`. */
  predicate AllFor(out: seq<Output>, tab: TabId) {
    forall i :: 0 <= i < |out| ==> Addressee(out[i]) in {None, Some(tab)}
  }

  /** emitNavigationState: a report of the surface's navigation state, only once it is ready. */
  function NavigationStateOutput(f: Flags, tab: TabId, host: HostView): (out: seq<Output>)
    ensures |out| <= 1
    ensures out != [] <==> f.ready
    ensures out != [] ==> out[0] == NavigationStateReport(tab, host.navigation)
  {
    if f.ready then [NavigationStateReport(tab, host.navigation)] else []
  }

  /** A url report when the url is not empty. */
  function ReportUrl(tab: TabId, url: string): (out: seq<Output>)
    ensures out == [] <==> url == ""
    ensures url != "" ==> out == [NavigationReport(tab, url)]
  {
    if url != "" then [NavigationReport(tab, url)] else []
  }

  /** dom-ready: the surface becomes ready, is muted and told its tab id; the current url is
      reported when there is one, then the navigation state. */
  function DomReady(f: Flags, tab: TabId, host: HostView): (r: Reaction)
    ensures r.flags == Flags(true, f.programmatic)
    ensures |r.out| == 3 || |r.out| == 4
    ensures r.out[..2] == [MuteAudio, SendInit(tab)]
    ensures r.out[|r.out| - 1] == NavigationStateReport(tab, host.navigation)
    ensures |r.out| == 4 <==> host.currentUrl.Some? && host.currentUrl.value != ""
    ensures |r.out| == 4 ==> r.out[2] == NavigationReport(tab, host.currentUrl.value)
  {
    var ready := f.(ready := true);
    var url := host.currentUrl.GetOr("");
    Reaction(ready, [MuteAudio, SendInit(tab)] + ReportUrl(tab, url) + NavigationStateOutput(ready, tab, host))
  }

  /** will-navigate: a navigation with a target, on a ready surface, that the app did not flag is
      the user following a link; it is cancelled and handed to onLinkOpen. Any other navigation
      with a target is let through and consumes the flag. */
  function WillNavigate(f: Flags, tab: TabId, target: string): (r: Reaction)
    ensures target == "" ==> r == Reaction(f, [])
    ensures target != "" ==> r.flags == Flags(f.ready, false)
    ensures target != "" && f.ready && !f.programmatic ==> r.out == [PreventDefault, LinkOpen(tab, target)]
    ensures !(f.ready && !f.programmatic) ==> r.out == []
  {
    if target == "" then Reaction(f, [])
    else if !f.ready then Reaction(f.(programmatic := false), [])
    else if f.programmatic then Reaction(f.(programmatic := false), [])
    else Reaction(f, [PreventDefault, LinkOpen(tab, target)])
  }

  /** did-navigate and did-navigate-in-page: once ready, the url the surface reports (or, when it
      offers no getURL, the event's url) is reported if not empty, then the navigation state. */
  function DidNavigate(f: Flags, tab: TabId, eventUrl: string, host: HostView): (r: Reaction)
    ensures r.flags == f
    ensures !f.ready ==> r.out == []
    ensures f.ready ==> 1 <= |r.out| <= 2
    ensures f.ready ==> r.out[|r.out| - 1] == NavigationStateReport(tab, host.navigation)
    ensures f.ready && host.currentUrl.Some? ==>
      r.out[..|r.out| - 1] == (if host.currentUrl.value == "" then [] else [NavigationReport(tab, host.currentUrl.value)])
    ensures f.ready && host.currentUrl.None? ==>
      r.out[..|r.out| - 1] == (if eventUrl == "" then [] else [NavigationReport(tab, eventUrl)])
  {
    if !f.ready then Reaction(f, [])
    else
      var url := host.currentUrl.GetOr(eventUrl);
      var out := ReportUrl(tab, url) + NavigationStateOutput(f, tab, host);
      assert out[..|out| - 1] == ReportUrl(tab, url);
      Reaction(f, out)
  }

  /** did-start-loading and did-stop-loading: only the navigation state, once ready. */
  function Loading(f: Flags, tab: TabId, host: HostView): (out: seq<Output>)
    ensures |out| <= 1
    ensures out == [] <==> !f.ready
    ensures forall i :: 0 <= i < |out| ==> out[i] == NavigationStateReport(tab, host.navigation)
  {
    NavigationStateOutput(f, tab, host)
  }

  /** ipc-message: page-script events on the event channel are forwarded for this item's tab,
      whatever tab id the payload carries; only a navigation event also reports the navigation
      state. Nothing here waits for ready, and no flag changes. */
  function IpcMessageOutput(f: Flags, tab: TabId, msg: IpcMessage, host: HostView): (out: seq<Output>)
    ensures msg.channel != EVENT_CHANNEL || msg.payload.None? || msg.payload.value.UnknownType? ==> out == []
    ensures AllFor(out, tab)
    ensures msg.channel == EVENT_CHANNEL && msg.payload.Some? && msg.payload.value.Event? ==>
      match msg.payload.value.event
      case LinkClicked(url, _) => out == [LinkOpen(tab, url)]
      case MetadataEvent(url, title, _) => out == [MetadataReport(tab, title, url)]
      case NavigationEvent(url, _) => out == [NavigationReport(tab, url)] + NavigationStateOutput(f, tab, host)
  {
    if msg.channel != EVENT_CHANNEL then []
    else if msg.payload.None? then []
    else match msg.payload.value
      case UnknownType => []
      case Event(e) =>
        match e
        case LinkClicked(url, _) => [LinkOpen(tab, url)]
        case MetadataEvent(url, title, _) => [MetadataReport(tab, title, url)]
        case NavigationEvent(url, _) => [NavigationReport(tab, url)] + NavigationStateOutput(f, tab, host)
  }

  /** The effect's cleanup: the surface is no longer ready; the programmatic flag stays as it was. */
  function Cleanup(f: Flags): (r: Flags)
    ensures !r.ready && r.programmatic == f.programmatic
  {
    f.(ready := false)
  }

  // ---------------------------------------------------------------------------
  // Event sequences.

  /** The app flags a load on a ready surface: the navigation that follows is let through rather
      than opened as a child, and the flag is used up, so the next unflagged navigation is
      classified as a link again. */
  lemma ProgrammaticFlagConsumedOnce(f: Flags, tab: TabId, target: string, next: string)
    requires f.ready && target != "" && next != ""
    ensures var first := WillNavigate(f.(programmatic := true), tab, target);
      var second := WillNavigate(first.flags, tab, next);
      && first.out == []
      && second.out == [PreventDefault, LinkOpen(tab, next)]
  {
  }

  /** Navigations before dom-ready are the surface loading its first url: never a link, whatever
      the flag, and the flag is cleared. */
  lemma BeforeReadyNeverALink(f: Flags, tab: TabId, target: string)
    requires !f.ready
    ensures var r := WillNavigate(f, tab, target);
      r.out == [] && !r.flags.ready && (target != "" ==> !r.flags.programmatic)
  {
  }

  /** After the effect's cleanup and before the next dom-ready, every will-navigate is let through,
      however the flag stood. */
  lemma CleanupDisarmsLinkInterception(f: Flags, tab: TabId, target: string)
    ensures WillNavigate(Cleanup(f), tab, target).out == []
  {
  }

  /** The page script's link-clicked message and the surface's own will-navigate are not matched
      against each other: when both report the same url on a ready, unflagged surface, onLinkOpen
      is called twice. The script's preventDefault normally cancels the click's own navigation, so
      will-navigate fires only when the page navigates again after it (from its own handler, say). */
  lemma BothInterceptionsOpenTwice(f: Flags, tab: TabId, url: string, scriptTabId: Option<TabId>, host: HostView)
    requires f.ready && !f.programmatic && url != ""
    ensures var fromScript := IpcMessageOutput(f, tab, IpcMessage(EVENT_CHANNEL, Some(Event(LinkClicked(url, scriptTabId)))), host);
      var fromSurface := WillNavigate(f, tab, url);
      fromScript + fromSurface.out == [LinkOpen(tab, url), PreventDefault, LinkOpen(tab, url)]
  {
  }

  /** A link click reported by the page script opens a link whether or not the surface is ready. */
  lemma IpcNotGatedOnReady(f: Flags, tab: TabId, url: string, scriptTabId: Option<TabId>, host: HostView)
    ensures var msg := IpcMessage(EVENT_CHANNEL, Some(Event(LinkClicked(url, scriptTabId))));
      IpcMessageOutput(f, tab, msg, host) == IpcMessageOutput(f.(ready := !f.ready), tab, msg, host)
  {
  }

  // ---------------------------------------------------------------------------
  // The imperative items.

  /** One mounted webview: the tab it shows and the flags its handlers flip in place.
      readyRef.current and the element's __acaciaReady are always written together, so they are
      one field here. */
  class WebviewItem {
    const tab: TabId
    var ready: bool
    var programmatic: bool

    function State(): Flags
      reads this
    {
      Flags(ready, programmatic)
    }

    /** A freshly created element: not ready, and __acaciaProgrammatic unset. */
    constructor (tab: TabId)
      ensures this.tab == tab && State() == Flags(false, false)
    {
      this.tab := tab;
      ready := false;
      programmatic := false;
    }

    method EmitNavigationState(host: HostView) returns (out: seq<Output>)
      ensures out == NavigationStateOutput(State(), tab, host)
    {
      out := [];
      if !ready {
        return;
      }
      out := [NavigationStateReport(tab, host.navigation)];
    }

    method HandleDomReady(host: HostView) returns (out: seq<Output>)
      modifies this
      ensures Reaction(State(), out) == DomReady(old(State()), tab, host)
    {
      ready := true;
      out := [MuteAudio, SendInit(tab)];
      if host.currentUrl.Some? && host.currentUrl.value != "" {
        out := out + [NavigationReport(tab, host.currentUrl.value)];
      }
      var state := EmitNavigationState(host);
      out := out + state;
    }

    method HandleWillNavigate(targetUrl: string) returns (out: seq<Output>)
      modifies this
      ensures Reaction(State(), out) == WillNavigate(old(State()), tab, targetUrl)
    {
      out := [];
      if targetUrl == "" {
        return;
      }
      if !ready {
        programmatic := false;
        return;
      }
      if programmatic {
        programmatic := false;
        return;
      }
      out := [PreventDefault, LinkOpen(tab, targetUrl)];
    }

    method HandleDidNavigate(eventUrl: string, host: HostView) returns (out: seq<Output>)
      ensures Reaction(State(), out) == DidNavigate(State(), tab, eventUrl, host)
    {
      out := [];
      if !ready {
        return;
      }
      var currentUrl := if host.currentUrl.Some? then host.currentUrl.value else eventUrl;
      if currentUrl != "" {
        out := [NavigationReport(tab, currentUrl)];
      }
      var state := EmitNavigationState(host);
      out := out + state;
    }

    method HandleLoading(host: HostView) returns (out: seq<Output>)
      ensures out == Loading(State(), tab, host)
    {
      out := [];
      if !ready {
        return;
      }
      out := EmitNavigationState(host);
    }

    method HandleIpcMessage(msg: IpcMessage, host: HostView) returns (out: seq<Output>)
      ensures out == IpcMessageOutput(State(), tab, msg, host)
    {
      out := [];
      if msg.channel != EVENT_CHANNEL || msg.payload.None? {
        return;
      }
      match msg.payload.value {
        case UnknownType =>
        case Event(e) =>
          match e {
            case LinkClicked(url, _) =>
              out := [LinkOpen(tab, url)];
            case MetadataEvent(url, title, _) =>
              out := [MetadataReport(tab, title, url)];
            case NavigationEvent(url, _) =>
              out := [NavigationReport(tab, url)];
              var state := EmitNavigationState(host);
              out := out + state;
          }
      }
    }

    /** The effect: register the element under its tab (the listeners are attached with it). */
    method Mount(manager: WebviewManager)
      modifies manager
      ensures manager.refs == old(manager.refs)[tab := this]
    {
      manager.Register(tab, this);
    }

    /** The effect's cleanup: unregister, then clear ready. */
    method Unmount(manager: WebviewManager)
      modifies this, manager
      ensures manager.refs == old(manager.refs) - {tab}
      ensures State() == Cleanup(old(State()))
    {
      manager.Unregister(tab);
      ready := false;
    }
  }

  /** The manager's shared map webviewRefs: tab id to mounted element. */
  class WebviewManager {
    var refs: map<TabId, WebviewItem>

    constructor ()
      ensures refs == map[]
    {
      refs := map[];
    }

    method Register(tabId: TabId, element: WebviewItem)
      modifies this
      ensures refs == old(refs)[tabId := element]
    {
      refs := refs[tabId := element];
    }

    method Unregister(tabId: TabId)
      modifies this
      ensures refs == old(refs) - {tabId}
    {
      refs := refs - {tabId};
    }

    /** The active-tab effect: the new active tab's navigation state is reported only when its
        element is registered and ready. */
    method OnActiveTabChange(activeTabId: Option<TabId>, host: HostView) returns (out: seq<Output>)
      ensures |out| <= 1
      ensures out != [] <==> activeTabId.Some? && activeTabId.value in refs && refs[activeTabId.value].ready
      ensures out != [] ==> out[0] == NavigationStateReport(activeTabId.value, host.navigation)
    {
      out := [];
      if activeTabId.None? {
        return;
      }
      if activeTabId.value !in refs {
        return;
      }
      var webview := refs[activeTabId.value];
      if !webview.ready {
        return;
      }
      out := [NavigationStateReport(activeTabId.value, host.navigation)];
    }
  }
}

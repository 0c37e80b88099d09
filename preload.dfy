/** The script preloaded into every page (src/preload/webview.ts): it intercepts plain link clicks
    and reports navigation and metadata to the host, tagged with the tab id the host assigned. */
module PageScript {
  import opened Tabs
  import opened JsString

  /** The messages posted on the "webview:event" channel. The tab id is None until webview:init
      arrives (the script starts with an empty id). */
  datatype WebviewEvent =
    | LinkClicked(url: string, tabId: Option<TabId>)
    | MetadataEvent(url: string, title: string, tabId: Option<TabId>)
    | NavigationEvent(url: string, tabId: Option<TabId>)

  /** The modifier keys of a click. */
  datatype MouseClick = MouseClick(metaKey: bool, ctrlKey: bool, shiftKey: bool, altKey: bool)

  /** An anchor element: its raw href attribute (None when absent), the resolved href property,
      and its target and rel attributes. */
  datatype Anchor = Anchor(rawHref: Option<string>, href: string, target: string, rel: string)

  const UNTITLED: string := "Untitled"

  predicate IsModifiedClick(e: MouseClick) {
    e.metaKey || e.ctrlKey || e.shiftKey || e.altKey
  }

  /** The only unmodified click is the one with every modifier key up. */
  lemma UnmodifiedMeansNoKeyHeld(e: MouseClick)
    ensures !IsModifiedClick(e) <==> e == MouseClick(false, false, false, false)
  {
  }

  /** Links the page keeps for itself: no or blank href, in-page fragments, javascript: URLs
      (both checked on the raw, untrimmed attribute) and target=_blank links marked rel external. */
  predicate ShouldBypassAnchor(a: Anchor) {
    || a.rawHref.None?
    || |Trim(a.rawHref.value)| == 0
    || StartsWith(a.rawHref.value, "#")
    || StartsWith(a.rawHref.value, "javascript:")
    || (a.target == "_blank" && Includes(a.rel, "external"))
  }

  /** The click listener: `anchor` is event.target.closest("a") (None when there is no target or
      no enclosing anchor). A message is posted, and the default prevented, exactly for an
      unmodified click on an anchor that is not bypassed. */
  function ClickDecision(anchor: Option<Anchor>, e: MouseClick, tabId: Option<TabId>): (r: Option<WebviewEvent>)
    ensures r.Some? <==> anchor.Some? && !ShouldBypassAnchor(anchor.value) && !IsModifiedClick(e)
    ensures r.Some? ==> r.value == LinkClicked(anchor.value.href, tabId)
  {
    if anchor.None? then None
    else if ShouldBypassAnchor(anchor.value) then None
    else if IsModifiedClick(e) then None
    else Some(LinkClicked(anchor.value.href, tabId))
  }

  /** notify(): the metadata message (document.title ?? "Untitled"). A DOM document's title is
      never nullish (a page without a title element has the empty title), so the script always
      sends Some; None stands for the fallback the code writes but a browser never takes. */
  function Metadata(location: string, title: Option<string>, tabId: Option<TabId>): (r: WebviewEvent)
    ensures r.MetadataEvent? && r.url == location && r.tabId == tabId
    ensures title.Some? ==> r.title == title.value
    ensures title.None? ==> r.title == UNTITLED
  {
    MetadataEvent(location, title.GetOr(UNTITLED), tabId)
  }

  /** A page without a title reports the empty string, not "Untitled". */
  lemma UntitledPageReportsEmptyTitle(location: string, tabId: Option<TabId>)
    ensures Metadata(location, Some(""), tabId).title == ""
  {
  }

  /** What init, hashchange and popstate post: a navigation report, then the metadata. */
  function NavigationThenMetadata(location: string, title: Option<string>, tabId: Option<TabId>): (r: seq<WebviewEvent>)
    ensures |r| == 2 && r[0].NavigationEvent? && r[1].MetadataEvent?
    ensures forall i :: 0 <= i < |r| ==> r[i].url == location && r[i].tabId == tabId
    ensures r[1].title == title.GetOr(UNTITLED)
  {
    [NavigationEvent(location, tabId), Metadata(location, title, tabId)]
  }

  /** A blank href is always left to the page, whatever its target and rel. */
  lemma BlankHrefBypassed(a: Anchor)
    requires a.rawHref.Some? && forall i :: 0 <= i < |a.rawHref.value| ==> IsWhitespace(a.rawHref.value[i])
    ensures ShouldBypassAnchor(a)
  {
  }

  /** The fragment test looks at the raw attribute: " #top" is not trimmed first, so it is
      intercepted like any other link. */
  lemma FragmentTestIsUntrimmed(href: string)
    ensures !ShouldBypassAnchor(Anchor(Some(" #top"), href, "", ""))
  {
    var raw := " #top";
    assert raw[1] == '#' && !IsWhitespace(raw[1]);
    assert |Trim(raw)| != 0;
    assert raw[..1] != "#";
    assert |raw| < |"javascript:"|;
  }

  /** An ordinary link (an href that starts with neither white space, "#" nor "javascript:", and no
      target=_blank) is not bypassed: an unmodified click on it is posted as a link. */
  lemma OrdinaryLinkIntercepted(a: Anchor, tabId: Option<TabId>)
    requires a.rawHref.Some? && |a.rawHref.value| > 0
    requires !IsWhitespace(a.rawHref.value[0]) && a.rawHref.value[0] != '#'
    requires !StartsWith(a.rawHref.value, "javascript:") && a.target != "_blank"
    ensures !ShouldBypassAnchor(a)
    ensures ClickDecision(Some(a), MouseClick(false, false, false, false), tabId) == Some(LinkClicked(a.href, tabId))
  {
    var raw := a.rawHref.value;
    assert |Trim(raw)| != 0;
    assert raw[..1] != "#" by { assert raw[..1][0] == raw[0]; }
  }

  /** Modifier keys leave every click to the page. */
  lemma ModifiedClickNeverPosts(anchor: Option<Anchor>, e: MouseClick, tabId: Option<TabId>)
    requires e.metaKey || e.ctrlKey || e.shiftKey || e.altKey
    ensures ClickDecision(anchor, e, tabId).None?
  {
  }

  /** The page script's one piece of state: the tab id the host sent it. The page's location and
      title are passed in, as the script reads them from the DOM when it posts. */
  class Script {
    var tabId: Option<TabId>

    constructor ()
      ensures tabId.None?
    {
      tabId := None;
    }

    /** ipcRenderer.on("webview:init"): the id is stored first, so both messages carry it. */
    method OnInit(id: TabId, location: string, title: Option<string>) returns (posted: seq<WebviewEvent>)
      modifies this
      ensures tabId == Some(id)
      ensures posted == NavigationThenMetadata(location, title, Some(id))
    {
      tabId := Some(id);
      posted := [NavigationEvent(location, tabId)];
      posted := posted + [Metadata(location, title, tabId)];
    }

    /** The hashchange and popstate listeners, which do the same: report, then notify(). */
    method OnLocationChange(location: string, title: Option<string>) returns (posted: seq<WebviewEvent>)
      ensures posted == NavigationThenMetadata(location, title, tabId)
    {
      posted := [NavigationEvent(location, tabId)];
      posted := posted + [Metadata(location, title, tabId)];
    }

    /** The title element's observer: notify(). */
    method OnMetadataChange(location: string, title: Option<string>) returns (posted: seq<WebviewEvent>)
      ensures |posted| == 1 && posted[0] == MetadataEvent(location, title.GetOr(UNTITLED), tabId)
    {
      posted := [Metadata(location, title, tabId)];
    }

    /** The capturing click listener. */
    method OnClick(anchor: Option<Anchor>, e: MouseClick) returns (preventDefault: bool, posted: seq<WebviewEvent>)
      ensures var d := ClickDecision(anchor, e, tabId);
        && preventDefault == d.Some?
        && posted == (if d.Some? then [d.value] else [])
    {
      preventDefault := false;
      posted := [];
      if anchor.None? {
        return;
      }
      if ShouldBypassAnchor(anchor.value) {
        return;
      }
      if IsModifiedClick(e) {
        return;
      }
      preventDefault := true;
      posted := [LinkClicked(anchor.value.href, tabId)];
    }
  }
}

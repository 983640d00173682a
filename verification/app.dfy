/** The session controller of the browser: the tab list, the active tab, the
    visit history and the bookmarks, and the event handlers that change them.
    Every handler is a pure transition from the state React holds before the
    event to the state it renders after it. */
module App {
  import opened Js
  import opened Seqs
  import opened Entities
  import Mock

  datatype Session = Session(tabs: seq<Tab>, activeTabId: int, history: seq<HistoryEntry>, bookmarks: seq<Bookmark>)

  /** The state a handler leaves behind, and the exception it raised, if any.
      State updates queued before a throw are still applied. */
  datatype Dispatched = Dispatched(state: Session, error: Option<string>)

  /** The session invariant: at least one tab, the active id names one of
      them, tab ids are distinct, and history and bookmark URLs are unique. */
  predicate Valid(s: Session) {
    && |s.tabs| > 0
    && HasKey(s.tabs, TabId, s.activeTabId)
    && KeysDistinct(s.tabs, TabId)
    && KeysDistinct(s.history, HistoryUrl)
    && KeysDistinct(s.bookmarks, BookmarkUrl)
  }

  /** The state of the first render: the seed tab (id 1, active), the seed
      history and the seed bookmarks. */
  function InitialSession(): (s: Session)
    ensures |s.tabs| == 1 && s.tabs[0].id == 1 && s.tabs[0].url == BLANK_URL
    ensures s.activeTabId == s.tabs[0].id
    ensures Valid(s)
  {
    Session(Mock.MOCK_TABS, 1, Mock.MOCK_HISTORY, Mock.MOCK_BOOKMARKS)
  }

  /** `tabs.findIndex(tab => tab.id === id)`. */
  function FindIndex(tabs: seq<Tab>, id: int): (i: int)
    ensures -1 <= i < |tabs|
    ensures i == -1 <==> !HasKey(tabs, TabId, id)
    ensures i >= 0 ==> tabs[i].id == id && forall k :: 0 <= k < i ==> tabs[k].id != id
    decreases |tabs|
  {
    if |tabs| == 0 then -1
    else if tabs[0].id == id then 0
    else
      var j := FindIndex(tabs[1..], id);
      assert HasKey(tabs, TabId, id) <==> HasKey(tabs[1..], TabId, id) by {
        if HasKey(tabs, TabId, id) {
          var k :| 0 <= k < |tabs| && TabId(tabs[k]) == id;
          assert tabs[1..][k - 1] == tabs[k];
        }
        if HasKey(tabs[1..], TabId, id) {
          var k :| 0 <= k < |tabs[1..]| && TabId(tabs[1..][k]) == id;
          assert tabs[k + 1] == tabs[1..][k];
        }
      }
      if j == -1 then -1 else j + 1
  }

  /** `tabs.find(tab => tab.id === activeTabId)`. */
  function ActiveTab(s: Session): (r: Option<Tab>)
    ensures r.Some? <==> HasKey(s.tabs, TabId, s.activeTabId)
    ensures r.Some? ==> r.value in s.tabs && r.value.id == s.activeTabId
  {
    var i := FindIndex(s.tabs, s.activeTabId);
    if i >= 0 then Some(s.tabs[i]) else None
  }

  /** `Math.max(...tabs.map(t => t.id))`. */
  function MaxId(tabs: seq<Tab>): (m: int)
    requires |tabs| > 0
    ensures forall i :: 0 <= i < |tabs| ==> tabs[i].id <= m
    ensures HasKey(tabs, TabId, m)
    decreases |tabs|
  {
    if |tabs| == 1 then tabs[0].id
    else
      var rest := MaxId(tabs[1..]);
      assert forall i :: 1 <= i < |tabs| ==> tabs[i] == tabs[1..][i - 1];
      var k :| 0 <= k < |tabs[1..]| && TabId(tabs[1..][k]) == rest;
      assert tabs[k + 1] == tabs[1..][k];
      if tabs[0].id > rest then tabs[0].id else rest
  }

  /** `generateTabId`: one more than the largest id in use. The id is fresh,
      and the id just below it is in use, so it is exactly the maximum plus
      one; the id of a closed highest tab therefore comes back. */
  function GenerateTabId(tabs: seq<Tab>): (id: int)
    requires |tabs| > 0
    ensures forall i :: 0 <= i < |tabs| ==> tabs[i].id < id
    ensures !HasKey(tabs, TabId, id)
    ensures HasKey(tabs, TabId, id - 1)
  {
    MaxId(tabs) + 1
  }

  /** `handleNewTab`: appends a blank tab with a fresh id and activates it. */
  function NewTab(s: Session): (r: Session)
    requires |s.tabs| > 0
    ensures |r.tabs| == |s.tabs| + 1 && r.tabs[..|s.tabs|] == s.tabs
    ensures var t := r.tabs[|s.tabs|];
      && t.title == NEW_TAB_TITLE && t.url == BLANK_URL && t.favicon == None && !t.isLoading
      && r.activeTabId == t.id
      && (forall i :: 0 <= i < |s.tabs| ==> s.tabs[i].id < t.id)
      && HasKey(s.tabs, TabId, t.id - 1)
    ensures r.history == s.history && r.bookmarks == s.bookmarks
  {
    var id := GenerateTabId(s.tabs);
    s.(tabs := s.tabs + [Tab(id, NEW_TAB_TITLE, BLANK_URL, None, false)], activeTabId := id)
  }

  /** `handleTabChange`: activates `id` without checking that a tab has it. */
  function SwitchTab(s: Session, id: int): (r: Session)
    ensures r.activeTabId == id
    ensures r.tabs == s.tabs && r.history == s.history && r.bookmarks == s.bookmarks
  {
    s.(activeTabId := id)
  }

  /** `handleTabClose`. With a single tab nothing happens. Otherwise every tab
      with id `tabId` is removed; if it was the active tab, the tab now at its
      index becomes active, else the one before it, else the first. Reading the
      id of a missing next tab throws after the removal has been queued. */
  function CloseTab(s: Session, tabId: int): (r: Dispatched)
    ensures |s.tabs| <= 1 ==> r == Dispatched(s, None)
    ensures |s.tabs| > 1 ==> r.state.tabs == RemoveKey(s.tabs, TabId, tabId)
    ensures s.activeTabId != tabId ==> r == Dispatched(r.state, None) && r.state.activeTabId == s.activeTabId
    ensures r.error.None? && r.state.activeTabId != s.activeTabId ==> HasKey(r.state.tabs, TabId, r.state.activeTabId)
    ensures r.error.Some? <==> |s.tabs| > 1 && s.activeTabId == tabId && r.state.tabs == []
    ensures r.state.history == s.history && r.state.bookmarks == s.bookmarks
  {
    if |s.tabs| > 1 then
      var newTabs := RemoveKey(s.tabs, TabId, tabId);
      if s.activeTabId == tabId then
        var i := FindIndex(s.tabs, tabId);
        if 0 <= i < |newTabs| then
          Dispatched(s.(tabs := newTabs, activeTabId := newTabs[i].id), None)
        else if 0 <= i - 1 < |newTabs| then
          Dispatched(s.(tabs := newTabs, activeTabId := newTabs[i - 1].id), None)
        else if |newTabs| > 0 then
          Dispatched(s.(tabs := newTabs, activeTabId := newTabs[0].id), None)
        else
          Dispatched(s.(tabs := newTabs), Some("TypeError: Cannot read properties of undefined (reading 'id')"))
      else
        Dispatched(s.(tabs := newTabs), None)
    else
      Dispatched(s, None)
  }

  /** The favicon guess `<protocol>//<hostname>/favicon.ico`. */
  function FaviconGuess(parts: UrlParts): string {
    parts.protocol + "//" + parts.hostname + "/favicon.ico"
  }

  /** `addToHistory`: nothing for an empty or blank URL; otherwise the visit
      goes first, titled `url` when `title` is empty, and every older entry
      with the same URL is dropped. Throws when the URL does not parse. */
  function AddToHistory(parse: UrlParser, history: seq<HistoryEntry>, url: string, title: string, clock: Clock)
    : (r: Outcome<seq<HistoryEntry>>)
    ensures url == "" || url == BLANK_URL ==> r == Ok(history)
    ensures url != "" && url != BLANK_URL ==> (r.Throws? <==> parse(url).None?)
    ensures url != "" && url != BLANK_URL && r.Ok? ==>
      && |r.value| >= 1
      && r.value[0].url == url
      && r.value[0].title == (if title == "" then url else title)
      && r.value[0].favicon == FaviconGuess(parse(url).value)
      && r.value[0].id == clock.now && r.value[0].visitedAt == clock.iso
      && r.value[1..] == RemoveKey(history, HistoryUrl, url)
  {
    if url != "" && url != BLANK_URL then
      match parse(url)
      case None => Throws("TypeError: Invalid URL")
      case Some(parts) =>
        var entry := HistoryEntry(clock.now, if title == "" then url else title, url, FaviconGuess(parts), clock.iso);
        Ok([entry] + RemoveKey(history, HistoryUrl, url))
    else Ok(history)
  }

  /** The tabs with `f` applied to every tab whose id is `id`. */
  function UpdateTabs(tabs: seq<Tab>, id: int, f: Tab -> Tab): (r: seq<Tab>)
    ensures |r| == |tabs|
    ensures forall i :: 0 <= i < |tabs| ==> r[i] == if tabs[i].id == id then f(tabs[i]) else tabs[i]
  {
    seq(|tabs|, i requires 0 <= i < |tabs| => if tabs[i].id == id then f(tabs[i]) else tabs[i])
  }

  /** `r` differs from `s` at most in the tabs whose id is the active id:
      same tabs in the same order with the same ids, same active id, same
      bookmarks. */
  predicate OnlyActiveTabChanged(s: Session, r: Session) {
    && r.activeTabId == s.activeTabId
    && |r.tabs| == |s.tabs|
    && (forall i :: 0 <= i < |s.tabs| ==> r.tabs[i].id == s.tabs[i].id)
    && (forall i :: 0 <= i < |s.tabs| && s.tabs[i].id != s.activeTabId ==> r.tabs[i] == s.tabs[i])
    && r.bookmarks == s.bookmarks
  }

  /** `handleNavigate`: the active tab shows the formatted address and starts
      loading; the visit is recorded under that address. */
  function Navigate(parse: UrlParser, s: Session, input: string, clock: Clock): (r: Dispatched)
    ensures OnlyActiveTabChanged(s, r.state)
    ensures var u := Mock.FormatUrl(parse, input);
      forall i :: 0 <= i < |s.tabs| && s.tabs[i].id == s.activeTabId ==>
        r.state.tabs[i] == s.tabs[i].(url := u, isLoading := true)
    ensures var h := AddToHistory(parse, s.history, Mock.FormatUrl(parse, input), Mock.FormatUrl(parse, input), clock);
      && (r.error.None? <==> h.Ok?)
      && r.state.history == (if h.Ok? then h.value else s.history)
  {
    var u := Mock.FormatUrl(parse, input);
    var tabs := UpdateTabs(s.tabs, s.activeTabId, (t: Tab) => t.(url := u, isLoading := true));
    match AddToHistory(parse, s.history, u, u, clock)
    case Ok(h) => Dispatched(s.(tabs := tabs, history := h), None)
    case Throws(e) => Dispatched(s.(tabs := tabs), Some(e))
  }

  /** `handleSearch`: navigates to the search-engine URL of the query. The
      active tab loads that URL, given `https://` once more when the parser
      rejects it, and the visit is recorded under the URL loaded. */
  function Search(parse: UrlParser, s: Session, query: string, clock: Clock): (r: Dispatched)
    ensures OnlyActiveTabChanged(s, r.state)
    ensures var u := if Mock.IsValidUrl(parse, Mock.SearchUrl(query)) then Mock.SearchUrl(query) else "https://" + Mock.SearchUrl(query);
      && (forall i :: 0 <= i < |s.tabs| && s.tabs[i].id == s.activeTabId ==>
            r.state.tabs[i] == s.tabs[i].(url := u, isLoading := true))
      && var h := AddToHistory(parse, s.history, u, u, clock);
         && (r.error.None? <==> h.Ok?)
         && r.state.history == (if h.Ok? then h.value else s.history)
  {
    Mock.FormatSearchUrl(parse, query);
    Navigate(parse, s, Mock.SearchUrl(query), clock)
  }

  /** `handleHome`: the active tab goes back to the blank page. */
  function Home(s: Session): (r: Session)
    ensures OnlyActiveTabChanged(s, r) && r.history == s.history
    ensures forall i :: 0 <= i < |s.tabs| && s.tabs[i].id == s.activeTabId ==>
      r.tabs[i] == s.tabs[i].(url := BLANK_URL, title := NEW_TAB_TITLE, favicon := None)
  {
    s.(tabs := UpdateTabs(s.tabs, s.activeTabId, (t: Tab) => t.(url := BLANK_URL, title := NEW_TAB_TITLE, favicon := None)))
  }

  /** The synchronous part of `handleRefresh`: the active tab, if there is
      one, starts loading. */
  function Refresh(s: Session): (r: Session)
    ensures OnlyActiveTabChanged(s, r) && r.history == s.history
    ensures forall i :: 0 <= i < |s.tabs| && s.tabs[i].id == s.activeTabId ==>
      r.tabs[i] == s.tabs[i].(isLoading := true)
  {
    if ActiveTab(s).Some? then
      s.(tabs := UpdateTabs(s.tabs, s.activeTabId, (t: Tab) => t.(isLoading := true)))
    else s
  }

  /** The refresh timer firing: every tab holding the id that was active when
      refresh was clicked (`tabId`, captured then) stops loading, whichever tab
      is active now. Only the id is captured: a tab opened since then under a
      reused id is affected too. */
  function RefreshDone(s: Session, tabId: int): (r: Session)
    ensures r.activeTabId == s.activeTabId && r.history == s.history && r.bookmarks == s.bookmarks
    ensures |r.tabs| == |s.tabs|
    ensures forall i :: 0 <= i < |s.tabs| ==>
      r.tabs[i] == if s.tabs[i].id == tabId then s.tabs[i].(isLoading := false) else s.tabs[i]
  {
    s.(tabs := UpdateTabs(s.tabs, tabId, (t: Tab) => t.(isLoading := false)))
  }

  /** `handleTitleChange`: the viewport reports the page title. */
  function TitleChanged(s: Session, title: string): (r: Session)
    ensures OnlyActiveTabChanged(s, r) && r.history == s.history
    ensures forall i :: 0 <= i < |s.tabs| && s.tabs[i].id == s.activeTabId ==>
      r.tabs[i] == s.tabs[i].(title := title)
  {
    s.(tabs := UpdateTabs(s.tabs, s.activeTabId, (t: Tab) => t.(title := title)))
  }

  /** `handleFaviconChange`: the viewport reports the favicon (or `null`). */
  function FaviconChanged(s: Session, favicon: Option<string>): (r: Session)
    ensures OnlyActiveTabChanged(s, r) && r.history == s.history
    ensures forall i :: 0 <= i < |s.tabs| && s.tabs[i].id == s.activeTabId ==>
      r.tabs[i] == s.tabs[i].(favicon := favicon)
  {
    s.(tabs := UpdateTabs(s.tabs, s.activeTabId, (t: Tab) => t.(favicon := favicon)))
  }

  /** `handleLoadingChange`: the viewport reports that loading started or ended. */
  function LoadingChanged(s: Session, isLoading: bool): (r: Session)
    ensures OnlyActiveTabChanged(s, r) && r.history == s.history
    ensures forall i :: 0 <= i < |s.tabs| && s.tabs[i].id == s.activeTabId ==>
      r.tabs[i] == s.tabs[i].(isLoading := isLoading)
  {
    s.(tabs := UpdateTabs(s.tabs, s.activeTabId, (t: Tab) => t.(isLoading := isLoading)))
  }

  /** `isBookmarked`: there is an active tab and some bookmark has its URL. */
  predicate IsBookmarked(s: Session) {
    ActiveTab(s).Some? && HasKey(s.bookmarks, BookmarkUrl, ActiveTab(s).value.url)
  }

  /** The active tab shows a real page (not empty, not the blank page). */
  predicate CanBookmark(s: Session) {
    ActiveTab(s).Some? && ActiveTab(s).value.url != "" && ActiveTab(s).value.url != BLANK_URL
  }

  /** `handleToggleBookmark`: for a real page, removes every bookmark with its
      URL if there is one, else puts a bookmark of the active tab first. */
  function ToggleBookmark(s: Session, clock: Clock): (r: Session)
    ensures r.tabs == s.tabs && r.activeTabId == s.activeTabId && r.history == s.history
    ensures !CanBookmark(s) ==> r.bookmarks == s.bookmarks
    ensures CanBookmark(s) && IsBookmarked(s) ==>
      r.bookmarks == RemoveKey(s.bookmarks, BookmarkUrl, ActiveTab(s).value.url)
    ensures CanBookmark(s) && !IsBookmarked(s) ==>
      var t := ActiveTab(s).value;
      r.bookmarks == [Bookmark(clock.now, t.title, t.url, t.favicon, clock.iso)] + s.bookmarks
  {
    match ActiveTab(s)
    case None => s
    case Some(t) =>
      if t.url != "" && t.url != BLANK_URL then
        if HasKey(s.bookmarks, BookmarkUrl, t.url) then
          s.(bookmarks := RemoveKey(s.bookmarks, BookmarkUrl, t.url))
        else
          s.(bookmarks := [Bookmark(clock.now, t.title, t.url, t.favicon, clock.iso)] + s.bookmarks)
      else s
  }

  /** Everything that can happen to the session: a user intent wired to a
      handler, a timer firing, or a viewport callback. */
  datatype Event =
    | NewTabClicked
    | TabClosed(closedId: int)
    | TabSelected(selectedId: int)
    | Navigated(input: string)
    | Searched(query: string)
    | HomeClicked
    | RefreshClicked
    | RefreshTimerFired(refreshedId: int)
    | BookmarkToggled
    | TitleResolved(title: string)
    | FaviconResolved(favicon: Option<string>)
    | LoadingResolved(isLoading: bool)

  /** Dispatches one event to its handler. */
  function Step(parse: UrlParser, clock: Clock, s: Session, e: Event): (r: Dispatched)
    requires |s.tabs| > 0
    ensures r.error.Some? ==> e.Navigated? || e.Searched? || e.TabClosed?
  {
    match e
    case NewTabClicked => Dispatched(NewTab(s), None)
    case TabClosed(id) => CloseTab(s, id)
    case TabSelected(id) => Dispatched(SwitchTab(s, id), None)
    case Navigated(input) => Navigate(parse, s, input, clock)
    case Searched(query) => Search(parse, s, query, clock)
    case HomeClicked => Dispatched(Home(s), None)
    case RefreshClicked => Dispatched(Refresh(s), None)
    case RefreshTimerFired(id) => Dispatched(RefreshDone(s, id), None)
    case BookmarkToggled => Dispatched(ToggleBookmark(s, clock), None)
    case TitleResolved(title) => Dispatched(TitleChanged(s, title), None)
    case FaviconResolved(favicon) => Dispatched(FaviconChanged(s, favicon), None)
    case LoadingResolved(isLoading) => Dispatched(LoadingChanged(s, isLoading), None)
  }

  /** The events the interface can raise in state `s`: a tab can only be
      selected by clicking one that is shown. */
  predicate Allowed(s: Session, e: Event) {
    e.TabSelected? ==> HasKey(s.tabs, TabId, e.selectedId)
  }
}

/** The invariants of the session controller: every handler keeps the session
    valid, and the tab, history and bookmark rules behave as the interface
    relies on. */
module SessionProofs {
  import opened Seqs
  import opened Entities
  import Mock
  import opened App

  /** A handler that changes only the active tab's fields and keeps history
      URLs unique keeps the session valid. */
  lemma ValidAfterActiveUpdate(s: Session, r: Session)
    requires Valid(s) && OnlyActiveTabChanged(s, r)
    requires KeysDistinct(r.history, HistoryUrl)
    ensures Valid(r)
  {
  }

  /** A new tab's id is fresh, so the session stays valid. */
  lemma NewTabPreservesValid(s: Session)
    requires Valid(s)
    ensures Valid(NewTab(s))
  {
  }

  /** Switching keeps the session valid exactly when the id names a shown tab;
      the handler itself does not check. */
  lemma SwitchTabValidIff(s: Session, id: int)
    requires Valid(s)
    ensures Valid(SwitchTab(s, id)) <==> HasKey(s.tabs, TabId, id)
  {
  }

  /** Closing never empties the tab list, never throws, and keeps the session
      valid; closing a shown tab when there are several removes exactly one. */
  lemma CloseTabPreservesValid(s: Session, tabId: int)
    requires Valid(s)
    ensures var r := CloseTab(s, tabId);
      && r.error.None?
      && Valid(r.state)
      && (|s.tabs| > 1 && HasKey(s.tabs, TabId, tabId) ==> |r.state.tabs| == |s.tabs| - 1)
      && (!HasKey(s.tabs, TabId, tabId) ==> r.state == s)
  {
    var r := CloseTab(s, tabId);
    if |s.tabs| > 1 {
      RemoveKeyKeepsDistinct(s.tabs, TabId, tabId);
      if HasKey(s.tabs, TabId, tabId) {
        var i :| 0 <= i < |s.tabs| && TabId(s.tabs[i]) == tabId;
        RemoveKeyAt(s.tabs, TabId, i);
        assert |r.state.tabs| == |s.tabs| - 1 > 0;
        if s.activeTabId != tabId {
          var k :| 0 <= k < |s.tabs| && TabId(s.tabs[k]) == s.activeTabId;
          assert s.tabs[k] in r.state.tabs;
          var m :| 0 <= m < |r.state.tabs| && r.state.tabs[m] == s.tabs[k];
          assert TabId(r.state.tabs[m]) == r.state.activeTabId;
        }
      } else {
        RemoveAbsentKey(s.tabs, TabId, tabId);
      }
    }
  }

  /** The fill-the-gap rule: closing the active tab at index `i` removes that
      tab only, and activates its right-hand neighbour, or its left-hand one
      when it was the last. */
  lemma CloseActiveFillsGap(s: Session, i: nat)
    requires Valid(s) && |s.tabs| > 1
    requires i < |s.tabs| && s.tabs[i].id == s.activeTabId
    ensures var r := CloseTab(s, s.activeTabId);
      && r.error.None?
      && r.state.tabs == s.tabs[..i] + s.tabs[i + 1..]
      && r.state.activeTabId == (if i + 1 < |s.tabs| then s.tabs[i + 1].id else s.tabs[i - 1].id)
  {
    RemoveKeyAt(s.tabs, TabId, i);
    assert FindIndex(s.tabs, s.activeTabId) == i by {
      var j := FindIndex(s.tabs, s.activeTabId);
      assert j >= 0 && s.tabs[j].id == s.tabs[i].id;
      assert TabId(s.tabs[j]) == TabId(s.tabs[i]);
    }
    var newTabs := s.tabs[..i] + s.tabs[i + 1..];
    if i + 1 < |s.tabs| {
      assert newTabs[i] == s.tabs[i + 1];
    } else {
      assert newTabs[i - 1] == s.tabs[i - 1];
    }
  }

  /** Closing keeps the remaining tabs in their relative order. */
  lemma CloseKeepsOrder(s: Session, tabId: int)
    ensures IsSubsequence(CloseTab(s, tabId).state.tabs, s.tabs)
  {
    if |s.tabs| > 1 {
      RemoveKeyIsSubsequence(s.tabs, TabId, tabId);
    } else {
      SubsequenceReflexive(s.tabs);
    }
  }

  /** Recording a visit keeps history URLs unique. */
  lemma AddToHistoryKeepsUrlsUnique(parse: UrlParser, history: seq<HistoryEntry>, url: string, title: string, clock: Clock)
    requires KeysDistinct(history, HistoryUrl)
    ensures var r := AddToHistory(parse, history, url, title, clock);
      r.Ok? ==> KeysDistinct(r.value, HistoryUrl)
  {
    var r := AddToHistory(parse, history, url, title, clock);
    if r.Ok? && url != "" && url != BLANK_URL {
      var rest := RemoveKey(history, HistoryUrl, url);
      RemoveKeyKeepsDistinct(history, HistoryUrl, url);
      RemoveKeyRemovesAll(history, HistoryUrl, url);
      PrependFreshKey(r.value[0], rest, HistoryUrl);
      assert r.value == [r.value[0]] + rest;
    }
  }

  /** After a recorded visit, the history holds exactly the URLs it held
      before plus the visited one. */
  lemma AddToHistoryUrls(parse: UrlParser, history: seq<HistoryEntry>, url: string, title: string, clock: Clock, u: string)
    requires url != "" && url != BLANK_URL && parse(url).Some?
    ensures var r := AddToHistory(parse, history, url, title, clock);
      r.Ok? && (HasKey(r.value, HistoryUrl, u) <==> HasKey(history, HistoryUrl, u) || u == url)
  {
  }

  /** Visiting the same URL twice leaves one entry for it, at the front, with
      the title of the later visit. */
  lemma AddToHistoryTwice(parse: UrlParser, history: seq<HistoryEntry>, url: string,
                          title1: string, title2: string, clock1: Clock, clock2: Clock)
    requires url != "" && url != BLANK_URL && parse(url).Some?
    ensures AddToHistory(parse, history, url, title1, clock1).Ok?
    ensures var once := AddToHistory(parse, history, url, title1, clock1).value;
      var twice := AddToHistory(parse, once, url, title2, clock2);
      && twice.Ok?
      && twice.value[0].url == url
      && twice.value[0].title == (if title2 == "" then url else title2)
      && forall k :: 0 < k < |twice.value| ==> twice.value[k].url != url
  {
    var once := AddToHistory(parse, history, url, title1, clock1).value;
    var twice := AddToHistory(parse, once, url, title2, clock2).value;
    RemoveKeyRemovesAll(once, HistoryUrl, url);
    forall k | 0 < k < |twice| ensures twice[k].url != url {
      assert twice[1..][k - 1] == twice[k];
    }
  }

  /** Navigating keeps the session valid, whether or not recording the visit
      threw. */
  lemma NavigatePreservesValid(parse: UrlParser, s: Session, input: string, clock: Clock)
    requires Valid(s)
    ensures Valid(Navigate(parse, s, input, clock).state)
  {
    var u := Mock.FormatUrl(parse, input);
    AddToHistoryKeepsUrlsUnique(parse, s.history, u, u, clock);
    ValidAfterActiveUpdate(s, Navigate(parse, s, input, clock).state);
  }

  /** After a successful navigation the active tab shows the formatted address
      and is loading, and that address heads the history. */
  lemma NavigateShowsAddress(parse: UrlParser, s: Session, input: string, clock: Clock)
    requires Valid(s)
    ensures var r := Navigate(parse, s, input, clock);
      var u := Mock.FormatUrl(parse, input);
      && ActiveTab(r.state).Some?
      && ActiveTab(r.state).value == ActiveTab(s).value.(url := u, isLoading := true)
      && (r.error.None? && u != "" && u != BLANK_URL ==> |r.state.history| > 0 && r.state.history[0].url == u)
  {
  }

  /** Typing a bare domain the parser rejects opens it over https: the
      active tab shows `https://github.com`, is loading, and the history
      gains exactly one entry, first, for that address. */
  lemma NavigateBareDomain(parse: UrlParser, s: Session, clock: Clock)
    requires Valid(s)
    requires parse("github.com").None? && parse("https://github.com").Some?
    requires !HasKey(s.history, HistoryUrl, "https://github.com")
    ensures var r := Navigate(parse, s, "github.com", clock);
      && r.error.None?
      && ActiveTab(r.state).Some?
      && ActiveTab(r.state).value.url == "https://github.com"
      && ActiveTab(r.state).value.isLoading
      && |r.state.history| == |s.history| + 1
      && r.state.history[0].url == "https://github.com"
  {
    var u := "https://github.com";
    assert "github.com" != "" && '.' in "github.com" && ' ' !in "github.com";
    assert Mock.FormatUrl(parse, "github.com") == u;
    assert u != "" && u != BLANK_URL;
    var h := AddToHistory(parse, s.history, u, u, clock);
    assert h.Ok?;
    RemoveAbsentKey(s.history, HistoryUrl, u);
    assert |h.value| == |s.history| + 1;
    var r := Navigate(parse, s, "github.com", clock);
    assert r.error.None? && r.state.history == h.value;
    NavigateShowsAddress(parse, s, "github.com", clock);
  }

  /** A search the parser accepts loads the search URL itself in the active
      tab and records it at the head of the history. */
  lemma SearchLoadsQueryUrl(parse: UrlParser, s: Session, query: string, clock: Clock)
    requires Valid(s) && Mock.IsValidUrl(parse, Mock.SearchUrl(query))
    ensures var r := Search(parse, s, query, clock);
      && r.error.None?
      && ActiveTab(r.state).value.url == Mock.SearchUrl(query)
      && r.state.history[0].url == Mock.SearchUrl(query)
  {
    var u := Mock.SearchUrl(query);
    Mock.FormatSearchUrl(parse, query);
    assert Mock.FormatUrl(parse, u) == u;
    Mock.SearchUrlIsHttps(query);
    var h := AddToHistory(parse, s.history, u, u, clock);
    assert h.Ok? && h.value[0].url == u;
    var r := Navigate(parse, s, u, clock);
    assert r.error.None? && r.state.history == h.value;
    NavigateShowsAddress(parse, s, u, clock);
  }

  /** Home keeps the session valid and the history as it was. */
  lemma HomePreservesValid(s: Session)
    requires Valid(s)
    ensures Valid(Home(s)) && Home(s).history == s.history
  {
  }

  /** Bookmarking or un-bookmarking keeps bookmark URLs unique. */
  lemma ToggleBookmarkPreservesValid(s: Session, clock: Clock)
    requires Valid(s)
    ensures Valid(ToggleBookmark(s, clock))
  {
    var r := ToggleBookmark(s, clock);
    if CanBookmark(s) {
      var url := ActiveTab(s).value.url;
      if IsBookmarked(s) {
        RemoveKeyKeepsDistinct(s.bookmarks, BookmarkUrl, url);
      } else {
        PrependFreshKey(r.bookmarks[0], s.bookmarks, BookmarkUrl);
      }
    }
  }

  /** On a page that can be bookmarked, toggling flips `isBookmarked`. */
  lemma ToggleBookmarkFlips(s: Session, clock: Clock)
    requires Valid(s) && CanBookmark(s)
    ensures IsBookmarked(ToggleBookmark(s, clock)) == !IsBookmarked(s)
  {
    var r := ToggleBookmark(s, clock);
    var url := ActiveTab(s).value.url;
    if IsBookmarked(s) {
      RemoveKeyRemovesAll(s.bookmarks, BookmarkUrl, url);
    } else {
      assert BookmarkUrl(r.bookmarks[0]) == url;
    }
  }

  /** Bookmarking a page and then un-bookmarking it restores the session. */
  lemma ToggleBookmarkTwice(s: Session, clock1: Clock, clock2: Clock)
    requires CanBookmark(s) && !IsBookmarked(s)
    ensures ToggleBookmark(ToggleBookmark(s, clock1), clock2) == s
  {
    var once := ToggleBookmark(s, clock1);
    var url := ActiveTab(s).value.url;
    assert BookmarkUrl(once.bookmarks[0]) == url;
    assert once.bookmarks[1..] == s.bookmarks;
    RemoveAbsentKey(s.bookmarks, BookmarkUrl, url);
  }

  /** A refresh timer whose captured id no tab holds changes nothing. */
  lemma RefreshDoneAfterClose(s: Session, tabId: int)
    requires !HasKey(s.tabs, TabId, tabId)
    ensures RefreshDone(s, tabId) == s
  {
  }

  /** Removing the highest id, when the id below it is in use, makes the next
      generated id that same id again. */
  lemma RemovedMaxIdReused(tabs: seq<Tab>, id: int)
    requires |tabs| > 0 && id == MaxId(tabs) && HasKey(tabs, TabId, id - 1)
    ensures |RemoveKey(tabs, TabId, id)| > 0
    ensures GenerateTabId(RemoveKey(tabs, TabId, id)) == id
  {
    var rest := RemoveKey(tabs, TabId, id);
    var k :| 0 <= k < |tabs| && TabId(tabs[k]) == id - 1;
    assert tabs[k] in rest;
    var m :| 0 <= m < |rest| && rest[m] == tabs[k];
    var newId := GenerateTabId(rest);
    assert newId > id - 1 by {
      assert rest[m].id < newId;
    }
    assert newId - 1 < id by {
      var j :| 0 <= j < |rest| && TabId(rest[j]) == newId - 1;
      assert rest[j] in tabs;
      var n :| 0 <= n < |tabs| && tabs[n] == rest[j];
      assert tabs[n].id <= id && tabs[n].id != id;
    }
  }

  /** The refresh timer captures an id, not a tab, and ids come back: when the
      active tab holds the highest id and the id below it is in use, closing
      it and opening a new tab gives the new tab the same id, and the pending
      timer then stops the new tab's loading. For instance tabs 1, 2, 3 with
      3 active: refresh, close 3, open a tab (id 3 again), let it load. */
  lemma RefreshTimerReachesReusedId(s: Session)
    requires Valid(s) && |s.tabs| > 1
    requires s.activeTabId == MaxId(s.tabs) && HasKey(s.tabs, TabId, s.activeTabId - 1)
    ensures var next := NewTab(CloseTab(s, s.activeTabId).state);
      var last := |next.tabs| - 1;
      && next.activeTabId == s.activeTabId && next.tabs[last].id == s.activeTabId
      && LoadingChanged(next, true).tabs[last].isLoading
      && !RefreshDone(LoadingChanged(next, true), s.activeTabId).tabs[last].isLoading
  {
    RemovedMaxIdReused(s.tabs, s.activeTabId);
    var next := NewTab(CloseTab(s, s.activeTabId).state);
    var last := |next.tabs| - 1;
    assert next.tabs[last].id == next.activeTabId == s.activeTabId;
    var loading := LoadingChanged(next, true);
    assert loading.tabs[last] == next.tabs[last].(isLoading := true);
    assert RefreshDone(loading, s.activeTabId).tabs[last] == loading.tabs[last].(isLoading := false);
  }

  /** Every handler keeps a valid session valid, provided tab switches name a
      shown tab; the only handlers that can throw are navigation and search. */
  lemma StepPreservesValid(parse: UrlParser, clock: Clock, s: Session, e: Event)
    requires Valid(s) && Allowed(s, e)
    ensures Valid(Step(parse, clock, s, e).state)
    ensures Step(parse, clock, s, e).error.Some? ==> e.Navigated? || e.Searched?
  {
    match e
    case NewTabClicked => NewTabPreservesValid(s);
    case TabClosed(id) => CloseTabPreservesValid(s, id);
    case TabSelected(id) => SwitchTabValidIff(s, id);
    case Navigated(input) => NavigatePreservesValid(parse, s, input, clock);
    case Searched(query) => NavigatePreservesValid(parse, s, Mock.SearchUrl(query), clock);
    case HomeClicked => HomePreservesValid(s);
    case RefreshClicked => ValidAfterActiveUpdate(s, Refresh(s));
    case RefreshTimerFired(id) => RefreshDonePreservesValid(s, id);
    case BookmarkToggled => ToggleBookmarkPreservesValid(s, clock);
    case TitleResolved(title) => ValidAfterActiveUpdate(s, TitleChanged(s, title));
    case FaviconResolved(favicon) => ValidAfterActiveUpdate(s, FaviconChanged(s, favicon));
    case LoadingResolved(b) => ValidAfterActiveUpdate(s, LoadingChanged(s, b));
  }

  lemma RefreshDonePreservesValid(s: Session, tabId: int)
    requires Valid(s)
    ensures Valid(RefreshDone(s, tabId))
  {
  }

  /** One event together with the clock reading at the moment it happens. */
  datatype Timed = Timed(event: Event, clock: Clock)

  /** The state after a sequence of events, up to the first one the interface
      could not raise. A handler that throws leaves its queued updates behind
      and the session goes on. */
  function Run(parse: UrlParser, s: Session, events: seq<Timed>): (r: Session)
    requires Valid(s)
    ensures Valid(r)
    decreases |events|
  {
    if |events| == 0 || !Allowed(s, events[0].event) then s
    else
      var e := events[0];
      StepPreservesValid(parse, e.clock, s, e.event);
      Run(parse, Step(parse, e.clock, s, e.event).state, events[1..])
  }
}

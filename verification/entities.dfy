/** The records the browser's session state is made of, and the projections
    of the URL parser and the clock that the core reads. */
module Entities {
  import opened Js

  /** The URL a tab shows when no page is loaded. */
  const BLANK_URL: string := "about:blank"

  /** The placeholder title of a blank tab. */
  const NEW_TAB_TITLE: string := "New Tab"

  /** One browsing context: its id, what it shows and whether it is loading. */
  datatype Tab = Tab(id: int, title: string, url: string, favicon: Option<string>, isLoading: bool)

  /** One visited page; `visitedAt` is an ISO-8601 time stamp. */
  datatype HistoryEntry = HistoryEntry(id: int, title: string, url: string, favicon: string, visitedAt: string)

  /** One bookmarked page; `addedAt` is an ISO-8601 time stamp. */
  datatype Bookmark = Bookmark(id: int, title: string, url: string, favicon: Option<string>, addedAt: string)

  /** One canned search suggestion. */
  datatype SearchResult = SearchResult(id: int, title: string, url: string, description: string, favicon: string)

  /** The parts of a parsed URL the core reads: `protocol` keeps its trailing
      colon (`"https:"`), as the URL API returns it. */
  datatype UrlParts = UrlParts(protocol: string, hostname: string)

  /** The URL parser: `None` when `new URL(s)` throws. It is a parameter of the
      model, so every property below holds whatever the parser accepts. */
  type UrlParser = string -> Option<UrlParts>

  /** What `Date.now()` and `new Date().toISOString()` return at the moment of an event. */
  datatype Clock = Clock(now: int, iso: string)

  function TabId(t: Tab): int { t.id }

  function HistoryUrl(h: HistoryEntry): string { h.url }

  function BookmarkUrl(b: Bookmark): string { b.url }
}

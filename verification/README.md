# Richa browser: session controller model

A Dafny model of the state logic of the Richa browser front end, a simulated
web browser written in React. The model covers three parts:

- The session controller in `frontend/src/App.js`. It owns the tab list, the
  active tab id, the visit history and the bookmarks. It handles new-tab,
  close, switch, navigate, search, home, refresh and bookmark toggling. It also
  takes the title, favicon and loading callbacks of the content viewport.
- The pure helpers in `frontend/src/mock.js`: the address normaliser
  `formatUrl`, the canned search `mockSearch`, and the seed data that forms the
  initial state.
- The tab strip in `frontend/src/components/TabManager.jsx`: how tab labels
  are truncated, when the close button is shown, and which actions its clicks
  and drops raise.

Each React `setState` handler is a pure function from one `Session` record
(`tabs`, `activeTabId`, `history`, `bookmarks`) to the next. A handler that can
throw returns a `Dispatched` value. It holds the state React renders next and
the error, if any. State updates queued before the throw are kept.

Modules, one per file:

- `Js` (js.dfy): nullable values and throwing handlers.
- `Seqs` (seqs.dfy): order-preserving `filter`, remove-by-key, distinct keys, subsequences.
- `JsStrings` (jsstrings.dfy): `trim`, `toLowerCase` on ASCII, `includes`, `substring`.
- `UriEncoding` (uri.dfy): `encodeURIComponent` (UTF-8 and `%XX`) and an ASCII decoder.
- `Entities` (entities.dfy): `Tab`, `HistoryEntry`, `Bookmark`, `SearchResult`, the URL-parser and clock parameters.
- `Mock` (mock.dfy): the seed data, `mockSearch`, `isValidUrl`, `formatUrl`.
- `App` (app.dfy): `Session`, the invariant `Valid`, and every handler.
- `SessionProofs` (session_proofs.dfy): the invariant and behaviour lemmas.
- `TabManager` (tab_manager.dfy): labels, the close-button rule and strip actions.

The WHATWG URL parser is a parameter, `UrlParser = string -> Option<UrlParts>`.
`isValidUrl(s)` means the parser accepts `s`. Every lemma holds for every
parser. `Date.now()` and `toISOString()` are a `Clock` parameter of each event.

## Behaviour of the code worth knowing

- Switching to a tab id is unchecked (App.js:35-37): any id becomes the active
  id. `SwitchTabValidIff` shows that validity is kept exactly when the id names
  a shown tab. `OfferedActionsAllowed` records that the tab strip only sends
  such ids.
- A new tab is activated at once (App.js:62).
- `addToHistory` throws when `new URL(url)` throws (App.js:28). `Navigate`
  reports the error. The tab update has already been queued, so it is kept and
  the history is left unchanged.
- The refresh timer clears the loading flag of every tab holding the id that
  was active when refresh was clicked (App.js:99-105). Its closure captured
  only that id. New tab ids are the largest id plus one (App.js:19), so a
  closed tab's id can come back, and the pending timer then reaches the new
  tab. `RefreshTimerReachesReusedId` shows this.

## Model

| member | source | states |
|---|---|---|
| `JsStrings.TrimEmptyIffBlank` | frontend/src/mock.js:115 | `!query.trim()` holds exactly when the query is empty or consists only of JavaScript whitespace |
| `UriEncoding.EncodeURIComponent` | frontend/src/mock.js:147 | the encoded query contains only unreserved characters and `%`, so it has no space, `&` or `#`; it is never shorter than the input |
| `UriEncoding.EncodeIdentityIff` | frontend/src/mock.js:147 | a query is left unchanged by encoding if and only if all its characters are unreserved |
| `UriEncoding.Utf8RoundTrip` | frontend/src/mock.js:147 | the bytes escaped for a character are its well-formed UTF-8 form: lead and continuation bytes are in their ranges, the form is the shortest one (no overlong encoding), and the bytes denote the character again |
| `UriEncoding.DecodeEncodeAscii` | frontend/src/mock.js:147 | percent-decoding the encoded query gives back an ASCII query exactly |
| `Mock.MockSearch` | frontend/src/mock.js:114-121 | empty or whitespace-only query gives no results; otherwise the results are a subsequence of the canned list in its order, every result matches case-insensitively in title or description, and no matching result is dropped |
| `Mock.FormatUrl` | frontend/src/mock.js:134-148 | empty input gives empty output; input the parser accepts is kept; other input with a dot and no space gets `https://`; everything else becomes the search-engine URL |
| `Mock.FormatUrlNavigable` | frontend/src/mock.js:134-148 | every non-empty input yields a non-empty address that the parser accepted or that starts with `https://`; text the parser rejected never yields an address containing a space |
| `Mock.FormatUrlSearchRecoversQuery` | frontend/src/mock.js:147 | when input falls through to a search, the URL starts with the search prefix and the ASCII query can be decoded back from it |
| `Mock.SearchUrlShape` | frontend/src/App.js:78 | the search URL always contains a dot and never a space |
| `Mock.FormatSearchUrl` | frontend/src/App.js:77-80 | formatting the search URL again, as navigation does, keeps it when the parser accepts it and otherwise only prefixes `https://` |
| `Mock.SearchUrlIsHttps` | frontend/src/App.js:78 | the search URL starts with `https://` and is never the blank page |
| `Mock.SearchUrlVerbatim` | frontend/src/App.js:78 | a query of unreserved characters appears verbatim after `q=` |
| `Mock.SearchUrlCats` | frontend/src/App.js:78 | searching for `cats` gives `https://www.google.com/search?q=cats` |
| `App.InitialSession` | frontend/src/App.js:10-13 | the initial state has one blank tab with id 1, which is the active id, and satisfies the invariant (distinct history and bookmark URLs in the seed data) |
| `App.FindIndex` | frontend/src/App.js:45 | `findIndex` returns the first index holding the id, and -1 exactly when no tab has it |
| `App.ActiveTab` | frontend/src/App.js:16 | the active tab exists exactly when some tab has the active id, and then it is a tab of the list with that id |
| `App.MaxId` | frontend/src/App.js:19 | the maximum is an id of the list and no id exceeds it |
| `App.GenerateTabId` | frontend/src/App.js:18-20 | the generated id is strictly greater than every id in use, so no tab has it, and the id just below it is in use, so it is exactly the largest id plus one |
| `App.NewTab` | frontend/src/App.js:52-63 | one tab is appended after the unchanged old tabs: `New Tab`, `about:blank`, no favicon, not loading, with an id larger than all others whose predecessor is in use, and it becomes active |
| `App.SwitchTab` | frontend/src/App.js:35-37 | only the active id changes, to the requested id |
| `App.CloseTab` | frontend/src/App.js:39-50 | with one tab nothing changes; otherwise exactly the tabs with that id are removed; closing an inactive tab keeps the active id; a new active id names a remaining tab; the handler throws only when every tab had the closed id |
| `App.AddToHistory` | frontend/src/App.js:22-33 | empty and blank URLs change nothing; otherwise it throws exactly when the URL does not parse, and on success the new visit comes first (title defaults to the URL, favicon guessed from protocol and host) followed by the old entries without that URL |
| `App.Navigate` | frontend/src/App.js:65-75 | only the active tab changes, to the formatted address and loading; the history is the result of recording that address, or unchanged with the error reported when recording throws |
| `App.Search` | frontend/src/App.js:77-80 | only the active tab changes: it loads the search-engine URL of the query, given `https://` once more when the parser rejects it, and starts loading; the history is the result of recording that URL, or unchanged with the error reported when recording throws |
| `App.Home` | frontend/src/App.js:109-115 | only the active tab changes, to `about:blank`, `New Tab` and no favicon; history is untouched |
| `App.Refresh` | frontend/src/App.js:90-97 | only the active tab changes, and only its loading flag, which becomes true |
| `App.RefreshDone` | frontend/src/App.js:99-105 | the timer clears the loading flag of every tab holding the id captured at click time and of no other tab; nothing else changes |
| `App.TitleChanged` | frontend/src/App.js:136-142 | only the active tab's title changes |
| `App.FaviconChanged` | frontend/src/App.js:144-150 | only the active tab's favicon changes |
| `App.LoadingChanged` | frontend/src/App.js:152-158 | only the active tab's loading flag changes |
| `App.ToggleBookmark` | frontend/src/App.js:117-134 | tabs and history are untouched; nothing happens without a real page; a bookmarked URL loses every bookmark with it; otherwise a bookmark of the active tab is put first |
| `App.Step` | frontend/src/App.js:164-199 | only closing, navigating and searching can throw |
| `SessionProofs.ValidAfterActiveUpdate` | frontend/src/App.js:136-158 | a change confined to the active tab's fields keeps the invariant |
| `SessionProofs.NewTabPreservesValid` | frontend/src/App.js:52-63 | a new tab keeps ids distinct and the active id valid |
| `SessionProofs.SwitchTabValidIff` | frontend/src/App.js:35-37 | a switch keeps the invariant if and only if the id names a shown tab |
| `SessionProofs.CloseTabPreservesValid` | frontend/src/App.js:39-50 | on a valid session closing never throws, never empties the list and keeps the invariant; a shown tab among several is removed alone; an unknown id changes nothing |
| `SessionProofs.CloseActiveFillsGap` | frontend/src/App.js:44-47 | closing the active tab at index i removes just that tab and activates the tab to its right, or the tab to its left when it was last |
| `SessionProofs.CloseKeepsOrder` | frontend/src/App.js:41 | the remaining tabs keep their relative order |
| `SessionProofs.AddToHistoryKeepsUrlsUnique` | frontend/src/App.js:31 | recording a visit keeps history URLs pairwise distinct |
| `SessionProofs.AddToHistoryUrls` | frontend/src/App.js:31 | after a recorded visit the history URLs are the old ones plus the visited one |
| `SessionProofs.AddToHistoryTwice` | frontend/src/App.js:22-33 | two visits to one URL leave one entry for it, first, with the later title |
| `SessionProofs.NavigatePreservesValid` | frontend/src/App.js:65-75 | navigation keeps the invariant whether or not recording the visit throws |
| `SessionProofs.NavigateShowsAddress` | frontend/src/App.js:65-75 | afterwards the active tab is the old one showing the formatted address and loading, and a recorded address heads the history |
| `SessionProofs.NavigateBareDomain` | frontend/src/App.js:65-75 | typing `github.com` loads `https://github.com` in the active tab and adds exactly one history entry, first |
| `SessionProofs.SearchLoadsQueryUrl` | frontend/src/App.js:77-80 | a search the parser accepts loads the search URL itself in the active tab and records it first in the history |
| `SessionProofs.HomePreservesValid` | frontend/src/App.js:109-115 | going home keeps the invariant and the history |
| `SessionProofs.ToggleBookmarkPreservesValid` | frontend/src/App.js:117-134 | toggling keeps bookmark URLs unique |
| `SessionProofs.ToggleBookmarkFlips` | frontend/src/App.js:160 | on a real page, toggling flips `isBookmarked` |
| `SessionProofs.ToggleBookmarkTwice` | frontend/src/App.js:117-134 | bookmarking an unbookmarked page and toggling again restores the whole session |
| `SessionProofs.RefreshDoneAfterClose` | frontend/src/App.js:99-105 | a timer whose captured id no tab holds changes nothing |
| `SessionProofs.RemovedMaxIdReused` | frontend/src/App.js:18-20 | after the tab with the largest id is removed, the next generated id is that id again when the id below it is in use |
| `SessionProofs.RefreshTimerReachesReusedId` | frontend/src/App.js:99-105 | closing the active tab with the largest id and opening a new tab reuses the id, and the pending refresh timer then stops the new tab's loading |
| `SessionProofs.RefreshDonePreservesValid` | frontend/src/App.js:99-105 | the refresh timer keeps the invariant |
| `SessionProofs.StepPreservesValid` | frontend/src/App.js:164-199 | every handler keeps the invariant, given that tab switches name a shown tab; on a valid session only navigation and search can throw |
| `SessionProofs.Run` | frontend/src/App.js:9-204 | any sequence of events the interface can raise, starting from a valid session, ends in a valid session |
| `TabManager.TruncatedTitle` | frontend/src/components/TabManager.jsx:27-30 | missing, empty and `about:blank` titles read `New Tab`; short titles are shown whole; longer ones become a prefix of the title of length `maxLength` followed by `...` |
| `TabManager.DefaultLabelBounded` | frontend/src/components/TabManager.jsx:27-30 | with the default length a label has at most 23 characters and is the title, `New Tab`, or its first 20 characters and `...` |
| `TabManager.Apply` | frontend/src/components/TabManager.jsx:18-47 | a strip action never touches the history or the bookmarks; a drop leaves the session untouched, since its handler only logs |
| `TabManager.ApplyPreservesValid` | frontend/src/components/TabManager.jsx:18-47 | every action the strip offers keeps a valid session valid |
| `TabManager.OfferedActionsAllowed` | frontend/src/components/TabManager.jsx:35-43 | an offered action raises an event the session accepts; that a tab click carries a shown tab's id is part of the definition of an offered action |
| `TabManager.CloseShownIffEffective` | frontend/src/components/TabManager.jsx:72-84 | the close button is shown exactly when closing that tab changes the session, matching the refusal to close the last tab |

## Left out

- Rendering is not modelled: JSX, CSS classes and icons.
- The markup of `NewTabPage.jsx` is not modelled. Its search form calls `onSearch` with the trimmed query, and its site, history and bookmark tiles call `onNavigate`. The model takes these as the `Searched` and `Navigated` events; the trimming is left to the caller of `Search`.
- The simulated load delay in `WebView.jsx` is not modelled as a timer. When it fires it calls `onLoadingChange(false)`, `onTitleChange` and `onFaviconChange`, and the model takes these as the `LoadingResolved`, `TitleResolved` and `FaviconResolved` events.
- The suggestion-hide delay in `AddressBar.jsx` is not modelled. It only hides the suggestion list, which is the address bar's own view state, and never touches the session.
- The frame of `WebView.jsx` is not modelled as a frame. Its URL effect calls `onLoadingChange(true)` or `onLoadingChange(false)`, and its load and error handlers call `onLoadingChange(false)`; the model takes these as `LoadingResolved` events.
- `window.open` is not modelled. It opens a browser window outside the session.
- The WHATWG URL parser is a parameter. Its validity test and its protocol and hostname are not interpreted.
- `AddressBar.jsx` input and suggestion syncing and the `slice` of suggestion lists are not modelled. They are view state over the helpers above.
- Back and forward are not modelled. They only log, and their buttons are always disabled.
- The `isActive` field of tab records is not modelled. Nothing reads it.
- The `searchResults` state of `App` is not modelled. It is never set.
- The `draggedTab` state and the console message of the drop handler are not modelled. They do not touch the session.
- `Date.now()` and `toISOString()` are a `Clock` parameter. Nothing is claimed about the uniqueness of history or bookmark ids.
- Seed time stamps are kept as the local date-time text. `toISOString` of a local time depends on the time zone.
- Titles are strings, so a `null` or `undefined` title reads as the empty string.
- `App.GenerateTabId`: requires a non-empty tab list. `Math.max()` of no ids is `-Infinity`; `SessionProofs.Run` shows the list is never empty.
- `Mock.MockSearch`: case folding covers only ASCII letters. `toLowerCase` also maps non-ASCII letters.
- `TabManager.TruncatedTitle`: lengths count Unicode scalar values. JavaScript counts UTF-16 code units, which differ only for characters outside the Basic Multilingual Plane.
- `UriEncoding.DecodeEncodeAscii`: the decoding round trip is proved for ASCII text only. Non-ASCII input is encoded but not decoded.
- `UriEncoding.EncodeURIComponent`: the `URIError` for a lone surrogate cannot arise, because Dafny strings hold only scalar values.

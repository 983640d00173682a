/** The static data and the pure helpers of the mock back end: the canned
    search, the URL validity test and the address normaliser. */
module Mock {
  import opened Js
  import opened Seqs
  import opened JsStrings
  import opened UriEncoding
  import opened Entities

  const SEARCH_RESULTS: seq<SearchResult> := [
    SearchResult(1, "React - A JavaScript library for building user interfaces", "https://reactjs.org",
      "A JavaScript library for building user interfaces. React makes it painless to create interactive UIs.",
      "https://reactjs.org/favicon.ico"),
    SearchResult(2, "Stack Overflow - Where Developers Learn, Share, & Build Careers", "https://stackoverflow.com",
      "Stack Overflow is the largest, most trusted online community for developers to learn, share their programming knowledge, and build their careers.",
      "https://cdn.sstatic.net/Sites/stackoverflow/Img/favicon.ico"),
    SearchResult(3, "GitHub: Where the world builds software", "https://github.com",
      "GitHub is where over 100 million developers shape the future of software, together. Contribute to the open source community, manage your Git repositories, and review code like a pro.",
      "https://github.githubassets.com/favicons/favicon.svg"),
    SearchResult(4, "MDN Web Docs", "https://developer.mozilla.org",
      "The MDN Web Docs site provides information about Open Web technologies including HTML, CSS, and APIs for both Web sites and progressive web apps.",
      "https://developer.mozilla.org/favicon-48x48.png"),
    SearchResult(5, "JavaScript.info - The Modern JavaScript Tutorial", "https://javascript.info",
      "Modern JavaScript Tutorial: simple, but detailed explanations with examples and tasks, including: closures, document and events, object oriented programming and more.",
      "https://javascript.info/img/favicon/favicon.png")
  ]

  /** The seed bookmarks. Their time stamps are the local date-times the
      app converts with `toISOString`. */
  const MOCK_BOOKMARKS: seq<Bookmark> := [
    Bookmark(1, "React Documentation", "https://reactjs.org/docs", Some("https://reactjs.org/favicon.ico"), "2024-01-15T10:30:00"),
    Bookmark(2, "CSS Tricks", "https://css-tricks.com", Some("https://css-tricks.com/favicon.ico"), "2024-01-10T14:20:00"),
    Bookmark(3, "CodePen", "https://codepen.io",
      Some("https://cpwebassets.codepen.io/assets/favicon/favicon-aec34940fbc1a6e787974dcd360f2c6b63348d4b1f4e06c77743096d55480f33.ico"),
      "2024-01-08T09:15:00")
  ]

  /** The seed history, most recent first. */
  const MOCK_HISTORY: seq<HistoryEntry> := [
    HistoryEntry(1, "How to create a React app", "https://create-react-app.dev", "https://create-react-app.dev/img/favicon.ico", "2024-01-20T16:45:00"),
    HistoryEntry(2, "Tailwind CSS Framework", "https://tailwindcss.com", "https://tailwindcss.com/favicons/favicon-32x32.png", "2024-01-20T15:30:00"),
    HistoryEntry(3, "Node.js Runtime", "https://nodejs.org", "https://nodejs.org/static/images/favicons/favicon.png", "2024-01-20T14:20:00"),
    HistoryEntry(4, "Express.js Framework", "https://expressjs.com", "https://expressjs.com/images/favicon.png", "2024-01-19T11:10:00"),
    HistoryEntry(5, "MongoDB Database", "https://mongodb.com", "https://www.mongodb.com/assets/images/global/favicon.ico", "2024-01-19T10:00:00")
  ]

  /** The single blank tab the browser opens with. */
  const MOCK_TABS: seq<Tab> := [Tab(1, NEW_TAB_TITLE, BLANK_URL, None, false)]

  /** A canned result matches when its title or its description contains the
      query, ignoring letter case. */
  predicate Matches(r: SearchResult, query: string) {
    Includes(ToLower(r.title), ToLower(query)) || Includes(ToLower(r.description), ToLower(query))
  }

  /** The suggestions for `query`: nothing for a blank query, otherwise exactly
      the matching canned results, in their original order. The query itself
      is matched untrimmed. */
  function MockSearch(query: string): (r: seq<SearchResult>)
    ensures IsBlank(query) ==> r == []
    ensures !IsBlank(query) ==> IsSubsequence(r, SEARCH_RESULTS)
    ensures forall x :: x in r ==> Matches(x, query)
    ensures !IsBlank(query) ==> forall x :: x in SEARCH_RESULTS && Matches(x, query) ==> x in r
  {
    TrimEmptyIffBlank(query);
    if Trim(query) == "" then []
    else
      var keep := (x: SearchResult) => Matches(x, query);
      FilterIsSubsequence(SEARCH_RESULTS, keep);
      Filter(SEARCH_RESULTS, keep)
  }

  /** `isValidUrl`: whether the URL parser accepts `s`. */
  predicate IsValidUrl(parse: UrlParser, s: string) {
    parse(s).Some?
  }

  const SEARCH_PREFIX: string := "https://www.google.com/search?q="

  /** The search-engine URL for a free-text query. */
  function SearchUrl(query: string): (r: string)
    ensures |r| >= |SEARCH_PREFIX| && r[..|SEARCH_PREFIX|] == SEARCH_PREFIX
    ensures r[|SEARCH_PREFIX|..] == EncodeURIComponent(query)
  {
    SEARCH_PREFIX + EncodeURIComponent(query)
  }

  /** `formatUrl`: turns what the user typed into the URL to load. */
  function FormatUrl(parse: UrlParser, input: string): (r: string)
    ensures input == "" ==> r == ""
    ensures input != "" && IsValidUrl(parse, input) ==> r == input
    ensures input != "" && !IsValidUrl(parse, input) && '.' in input && ' ' !in input ==> r == "https://" + input
    ensures input != "" && !IsValidUrl(parse, input) && !('.' in input && ' ' !in input) ==> r == SearchUrl(input)
  {
    if input == "" then ""
    else if IsValidUrl(parse, input) then input
    else if '.' in input && ' ' !in input then "https://" + input
    else SearchUrl(input)
  }

  /** A search URL never contains a space and always contains a dot. */
  lemma SearchUrlShape(query: string)
    ensures ' ' !in SearchUrl(query)
    ensures '.' in SearchUrl(query)
  {
    var e := EncodeURIComponent(query);
    assert ' ' !in SEARCH_PREFIX && '.' in SEARCH_PREFIX;
    assert ' ' !in e;
    assert SearchUrl(query) == SEARCH_PREFIX + e;
  }

  /** A search URL is an https address and never the blank page. */
  lemma SearchUrlIsHttps(query: string)
    ensures var r := SearchUrl(query);
      |r| >= 8 && r[..8] == "https://" && r != BLANK_URL
  {
    var r := SearchUrl(query);
    assert r[..|SEARCH_PREFIX|] == SEARCH_PREFIX;
    assert SEARCH_PREFIX[..8] == "https://";
    assert r[..8] == r[..|SEARCH_PREFIX|][..8];
    assert r[0] == 'h' != BLANK_URL[0];
  }

  /** Whatever the user types, a non-empty input becomes a non-empty address
      that the parser accepted or that starts with `https://`; and text the
      parser rejected never yields an address containing a space. */
  lemma FormatUrlNavigable(parse: UrlParser, input: string)
    requires input != ""
    ensures var r := FormatUrl(parse, input);
      && r != ""
      && (IsValidUrl(parse, r) || (|r| >= 8 && r[..8] == "https://"))
      && (!IsValidUrl(parse, input) ==> ' ' !in r)
  {
    var r := FormatUrl(parse, input);
    if !IsValidUrl(parse, input) {
      if '.' in input && ' ' !in input {
        assert r == "https://" + input;
        assert r[..8] == "https://";
        assert ' ' !in "https://";
      } else {
        assert r == SearchUrl(input);
        SearchUrlShape(input);
        SearchUrlIsHttps(input);
      }
    }
  }

  /** When the input falls through to a search, the query can be read back
      from the URL (for ASCII input). */
  lemma FormatUrlSearchRecoversQuery(parse: UrlParser, input: string)
    requires input != "" && !IsValidUrl(parse, input) && !('.' in input && ' ' !in input)
    requires IsAscii(input)
    ensures var r := FormatUrl(parse, input);
      |r| >= |SEARCH_PREFIX| && r[..|SEARCH_PREFIX|] == SEARCH_PREFIX
      && PercentDecode(r[|SEARCH_PREFIX|..]) == input
  {
    DecodeEncodeAscii(input);
  }

  /** Formatting a search URL again yields it unchanged when the parser
      accepts it, and otherwise only prefixes `https://` (it contains a dot
      and no space). */
  lemma FormatSearchUrl(parse: UrlParser, query: string)
    ensures IsValidUrl(parse, SearchUrl(query)) ==> FormatUrl(parse, SearchUrl(query)) == SearchUrl(query)
    ensures !IsValidUrl(parse, SearchUrl(query)) ==> FormatUrl(parse, SearchUrl(query)) == "https://" + SearchUrl(query)
  {
    SearchUrlShape(query);
  }

  /** A query of unreserved characters appears in the search URL verbatim,
      for instance `q=cats`. */
  lemma SearchUrlVerbatim(query: string)
    requires forall i :: 0 <= i < |query| ==> IsUnreserved(query[i])
    ensures SearchUrl(query) == SEARCH_PREFIX + query
  {
    EncodeIdentityIff(query);
  }

  /** Searching for `cats` gives `https://www.google.com/search?q=cats`. */
  lemma SearchUrlCats()
    ensures SearchUrl("cats") == "https://www.google.com/search?q=cats"
  {
    SearchUrlVerbatim("cats");
  }
}

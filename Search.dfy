/** The custom search engine of the browser: discovery of the local template
    pages, the ranking of search results (local pages first, a Google search
    always last), the choice of what a tab loads for the text typed in its
    address bar, and the guard that keeps at least one tab open.

    The directory walk, `str.title`, `quote_plus` and the widgets are outside
    the model: the walk is given as a list of folders, and `str.title` and
    `quote_plus` are function parameters. */
module Search {
  import opened PyText

  // ---------------------------------------------------------- local pages

  /** One directory produced by `os.walk` under the templates directory: its
      path relative to that directory ("" for the directory itself) and the
      names of its files, in listing order. */
  datatype Folder = Folder(rel: string, files: seq<string>)

  /** How discovered files become pages: the server URL (already without a
      trailing "/"), the platform's path separator `os.sep`, and `str.title`. */
  datatype Layout = Layout(base: string, sep: char, titleCase: string -> string)

  /** A discovered page: the dictionary {'url', 'title', 'path'}. */
  datatype Page = Page(url: string, title: string, path: string)

  const HtmlSuffix: string := ".html"

  predicate IsHtml(file: string) {
    HasSuffix(file, HtmlSuffix)
  }

  predicate AllDots(s: string) {
    forall k :: 0 <= k < |s| ==> s[k] == '.'
  }

  /** `os.path.splitext(file)[0]` for a name ending in ".html": the name
      without the extension, except that a name whose part before the
      extension is only dots (".html", "..html") has no extension at all. */
  function Stem(file: string): (r: string)
    requires IsHtml(file)
    ensures r == file || r + HtmlSuffix == file
    ensures AllDots(file[..|file| - |HtmlSuffix|]) ==> r == file
    ensures !AllDots(file[..|file| - |HtmlSuffix|]) ==> r + HtmlSuffix == file
  {
    var s := file[..|file| - |HtmlSuffix|];
    if AllDots(s) then file else s
  }

  /** `os.path.relpath(os.path.join(root, file), templates_dir)`. */
  function RelPath(rel: string, file: string, sep: char): string {
    if rel == [] then file else rel + [sep] + file
  }

  /** Lines 24-30: the page of one ".html" file. */
  function PageFor(lay: Layout, rel: string, file: string): (p: Page)
    requires IsHtml(file)
    ensures p.path == RelPath(rel, file, lay.sep) && IsHtml(p.path)
    ensures p.url == lay.base + "/" + ReplaceChar(p.path, lay.sep, '/')
  {
    var path := RelPath(rel, file, lay.sep);
    assert path[|path| - |file|..] == file;
    assert path[|path| - |HtmlSuffix|..] == file[|file| - |HtmlSuffix|..];
    Page(lay.base + "/" + ReplaceChar(path, lay.sep, '/'),
         lay.titleCase(ReplaceChar(Stem(file), '_', ' ')),
         path)
  }

  /** The pages of the files of one folder, in order. */
  function FilePages(lay: Layout, rel: string, files: seq<string>): seq<Page> {
    if files == [] then []
    else
      var last := files[|files| - 1];
      FilePages(lay, rel, files[..|files| - 1]) + (if IsHtml(last) then [PageFor(lay, rel, last)] else [])
  }

  /** The pages of all folders of the walk, in walk order. */
  function WalkPages(lay: Layout, walk: seq<Folder>): seq<Page> {
    if walk == [] then []
    else
      var last := walk[|walk| - 1];
      WalkPages(lay, walk[..|walk| - 1]) + FilePages(lay, last.rel, last.files)
  }

  /** `p` is the page of `file`, which is an ".html" file. */
  predicate PageOf(lay: Layout, rel: string, file: string, p: Page) {
    IsHtml(file) && p == PageFor(lay, rel, file)
  }

  /** Every ".html" file of a folder gives its page. */
  lemma {:induction false} FilePagesComplete(lay: Layout, rel: string, files: seq<string>, j: nat)
    requires j < |files| && IsHtml(files[j])
    ensures PageFor(lay, rel, files[j]) in FilePages(lay, rel, files)
  {
    var n := |files| - 1;
    if j < n {
      var init := files[..n];
      assert init[j] == files[j];
      FilePagesComplete(lay, rel, init, j);
    }
  }

  /** Every page of a folder is the page of one of its ".html" files. */
  lemma {:induction false} FilePagesSound(lay: Layout, rel: string, files: seq<string>, p: Page)
    requires p in FilePages(lay, rel, files)
    ensures exists j :: 0 <= j < |files| && PageOf(lay, rel, files[j], p)
  {
    var n := |files| - 1;
    var init := files[..n];
    if p in FilePages(lay, rel, init) {
      FilePagesSound(lay, rel, init, p);
      var j :| 0 <= j < |init| && PageOf(lay, rel, init[j], p);
      assert files[j] == init[j];
    } else {
      assert PageOf(lay, rel, files[n], p);
    }
  }

  /** Every ".html" file met by the walk gives its page. */
  lemma {:induction false} WalkPagesComplete(lay: Layout, walk: seq<Folder>, i: nat, j: nat)
    requires i < |walk| && j < |walk[i].files| && IsHtml(walk[i].files[j])
    ensures PageFor(lay, walk[i].rel, walk[i].files[j]) in WalkPages(lay, walk)
  {
    var n := |walk| - 1;
    if i < n {
      var init := walk[..n];
      assert init[i] == walk[i];
      WalkPagesComplete(lay, init, i, j);
    } else {
      FilePagesComplete(lay, walk[n].rel, walk[n].files, j);
    }
  }

  /** Every discovered page is the page of an ".html" file met by the walk. */
  lemma {:induction false} WalkPagesSound(lay: Layout, walk: seq<Folder>, p: Page)
    requires p in WalkPages(lay, walk)
    ensures exists i, j :: 0 <= i < |walk| && 0 <= j < |walk[i].files| && PageOf(lay, walk[i].rel, walk[i].files[j], p)
  {
    var n := |walk| - 1;
    var init := walk[..n];
    if p in WalkPages(lay, init) {
      WalkPagesSound(lay, init, p);
      var i, j :| 0 <= i < |init| && 0 <= j < |init[i].files| && PageOf(lay, init[i].rel, init[i].files[j], p);
      assert walk[i] == init[i];
    } else {
      FilePagesSound(lay, walk[n].rel, walk[n].files, p);
      var j :| 0 <= j < |walk[n].files| && PageOf(lay, walk[n].rel, walk[n].files[j], p);
    }
  }

  /** Lines 17-31: the discovered pages are exactly the pages of the ".html"
      files met by the walk; no other file gives a page. */
  lemma WalkPagesIff(lay: Layout, walk: seq<Folder>, p: Page)
    ensures p in WalkPages(lay, walk) <==>
              exists i, j :: 0 <= i < |walk| && 0 <= j < |walk[i].files| && PageOf(lay, walk[i].rel, walk[i].files[j], p)
  {
    if p in WalkPages(lay, walk) {
      WalkPagesSound(lay, walk, p);
    }
    if exists i, j :: 0 <= i < |walk| && 0 <= j < |walk[i].files| && PageOf(lay, walk[i].rel, walk[i].files[j], p) {
      var i, j :| 0 <= i < |walk| && 0 <= j < |walk[i].files| && PageOf(lay, walk[i].rel, walk[i].files[j], p);
      WalkPagesComplete(lay, walk, i, j);
    }
  }

  /** Lines 17-31, `_discover_local_pages`: walk the templates directory, if
      it exists, and collect a page for every ".html" file. */
  method DiscoverLocalPages(lay: Layout, dirExists: bool, walk: seq<Folder>) returns (pages: seq<Page>)
    ensures pages == if dirExists then WalkPages(lay, walk) else []
  {
    pages := [];
    if dirExists {
      for i := 0 to |walk|
        invariant pages == WalkPages(lay, walk[..i])
      {
        var folder := walk[i];
        ghost var before := pages;
        for j := 0 to |folder.files|
          invariant pages == before + FilePages(lay, folder.rel, folder.files[..j])
        {
          var file := folder.files[j];
          assert folder.files[..j + 1][..j] == folder.files[..j];
          if IsHtml(file) {
            pages := pages + [PageFor(lay, folder.rel, file)];
          }
        }
        assert folder.files[..|folder.files|] == folder.files;
        assert walk[..i + 1][..i] == walk[..i];
      }
      assert walk[..|walk|] == walk;
    }
  }

  // -------------------------------------------------------------- ranking

  /** One search result: the dictionary {'title', 'url', 'description', 'priority'}. */
  datatype SearchResult = SearchResult(title: string, url: string, description: string, priority: int)

  const GoogleSearchUrl: string := "https://www.google.com/search?q="

  /** Line 39: the lower-cased query occurs in the lower-cased title or path. */
  predicate Matches(p: Page, query: string) {
    Contains(Lower(p.title), Lower(query)) || Contains(Lower(p.path), Lower(query))
  }

  /** Lines 40-45. */
  function LocalResult(p: Page): SearchResult {
    SearchResult("Local Page: " + p.title, p.url, "Local template page at " + p.path, 1)
  }

  /** Lines 48-54. */
  function GoogleResult(query: string, quotePlus: string -> string): SearchResult {
    SearchResult("Search Google for '" + query + "'", GoogleSearchUrl + quotePlus(query),
                 "Search the web using Google", 0)
  }

  /** The pages that match the query, in their order. */
  function Matching(pages: seq<Page>, query: string): seq<Page> {
    if pages == [] then []
    else
      var last := pages[|pages| - 1];
      Matching(pages[..|pages| - 1], query) + (if Matches(last, query) then [last] else [])
  }

  /** The positions in `pages` of the pages that match. */
  function MatchPositions(pages: seq<Page>, query: string): seq<nat> {
    if pages == [] then []
    else
      MatchPositions(pages[..|pages| - 1], query)
        + (if Matches(pages[|pages| - 1], query) then [|pages| - 1] else [])
  }

  /** The positions name the matching pages, one position per page. */
  lemma {:induction false} MatchPositionsPick(pages: seq<Page>, query: string)
    ensures |MatchPositions(pages, query)| == |Matching(pages, query)|
    ensures forall k :: 0 <= k < |MatchPositions(pages, query)| ==>
              MatchPositions(pages, query)[k] < |pages|
              && Matching(pages, query)[k] == pages[MatchPositions(pages, query)[k]]
  {
    if pages != [] {
      var n := |pages| - 1;
      var init := pages[..n];
      MatchPositionsPick(init, query);
      var m0, ix0 := Matching(init, query), MatchPositions(init, query);
      var m, ix := Matching(pages, query), MatchPositions(pages, query);
      forall k | 0 <= k < |ix| ensures ix[k] < |pages| && m[k] == pages[ix[k]] {
        if k < |ix0| {
          assert ix[k] == ix0[k] && m[k] == m0[k];
          assert pages[ix0[k]] == init[ix0[k]];
        } else {
          assert ix[k] == n && m[k] == pages[n];
        }
      }
    }
  }

  lemma {:induction false} MatchPositionsIncreasing(pages: seq<Page>, query: string)
    ensures forall k, l :: 0 <= k < l < |MatchPositions(pages, query)| ==>
              MatchPositions(pages, query)[k] < MatchPositions(pages, query)[l]
  {
    if pages != [] {
      var n := |pages| - 1;
      var init := pages[..n];
      MatchPositionsIncreasing(init, query);
      MatchPositionsPick(init, query);
      var ix0, ix := MatchPositions(init, query), MatchPositions(pages, query);
      assert forall k :: 0 <= k < |ix0| ==> ix[k] == ix0[k] && ix0[k] < n;
    }
  }

  lemma {:induction false} MatchPositionsCover(pages: seq<Page>, query: string)
    ensures forall j :: 0 <= j < |pages| ==> (Matches(pages[j], query) <==> j in MatchPositions(pages, query))
  {
    if pages != [] {
      var n := |pages| - 1;
      var init := pages[..n];
      MatchPositionsCover(init, query);
      MatchPositionsPick(init, query);
      var ix0 := MatchPositions(init, query);
      assert MatchPositions(pages, query) == ix0 + (if Matches(pages[n], query) then [n] else []);
      assert n !in ix0;
      forall j | 0 <= j < n ensures Matches(pages[j], query) <==> Matches(init[j], query) {
        assert pages[j] == init[j];
      }
    }
  }

  /** The matching pages are the pages at strictly increasing positions, and
      a position is among them exactly when its page matches: a page is
      included iff it matches, and the included ones keep their order. */
  lemma MatchingSpec(pages: seq<Page>, query: string)
    ensures var m := Matching(pages, query);
            var ix := MatchPositions(pages, query);
            && |ix| == |m|
            && (forall k :: 0 <= k < |ix| ==> ix[k] < |pages| && m[k] == pages[ix[k]])
            && (forall k, l :: 0 <= k < l < |ix| ==> ix[k] < ix[l])
            && (forall j :: 0 <= j < |pages| ==> (Matches(pages[j], query) <==> j in ix))
  {
    MatchPositionsPick(pages, query);
    MatchPositionsIncreasing(pages, query);
    MatchPositionsCover(pages, query);
  }

  /** One more page adds its local result exactly when it matches. */
  lemma LocalResultsStep(pages: seq<Page>, i: nat, query: string)
    requires i < |pages|
    ensures LocalResults(Matching(pages[..i + 1], query))
            == LocalResults(Matching(pages[..i], query))
               + (if Matches(pages[i], query) then [LocalResult(pages[i])] else [])
  {
    var m := Matching(pages[..i], query);
    assert pages[..i + 1][..i] == pages[..i];
    if Matches(pages[i], query) {
      assert (m + [pages[i]])[..|m|] == m;
    }
  }

  /** The local results of the matching pages, one per page, in order. */
  function LocalResults(ps: seq<Page>): (r: seq<SearchResult>)
    ensures |r| == |ps| && forall k :: 0 <= k < |ps| ==> r[k] == LocalResult(ps[k])
  {
    if ps == [] then [] else LocalResults(ps[..|ps| - 1]) + [LocalResult(ps[|ps| - 1])]
  }

  /** Results ordered by descending priority. */
  predicate ByPriority(s: seq<SearchResult>) {
    forall i, j :: 0 <= i < j < |s| ==> s[i].priority >= s[j].priority
  }

  /** Places `x` before the first result whose priority is not above its own,
      so that among equal priorities `x` stays first. */
  function InsertByPriority(x: SearchResult, s: seq<SearchResult>): (r: seq<SearchResult>)
    ensures multiset(r) == multiset(s) + multiset{x}
  {
    if s == [] || s[0].priority <= x.priority then [x] + s
    else
      assert s == [s[0]] + s[1..];
      [s[0]] + InsertByPriority(x, s[1..])
  }

  /** Line 57, `results.sort(key=priority, reverse=True)`: a stable sort by
      descending priority. */
  function SortByPriority(s: seq<SearchResult>): (r: seq<SearchResult>)
    ensures multiset(r) == multiset(s)
  {
    if s == [] then []
    else
      assert s == [s[0]] + s[1..];
      InsertByPriority(s[0], SortByPriority(s[1..]))
  }

  /** Inserting keeps every priority within a bound that holds for all. */
  lemma {:induction false} InsertBounded(x: SearchResult, s: seq<SearchResult>, bound: int)
    requires x.priority <= bound && forall k :: 0 <= k < |s| ==> s[k].priority <= bound
    ensures forall k :: 0 <= k < |InsertByPriority(x, s)| ==> InsertByPriority(x, s)[k].priority <= bound
  {
    if s != [] && s[0].priority > x.priority {
      InsertBounded(x, s[1..], bound);
    }
  }

  lemma {:induction false} InsertKeepsOrder(x: SearchResult, s: seq<SearchResult>)
    requires ByPriority(s)
    ensures ByPriority(InsertByPriority(x, s))
  {
    if s != [] && s[0].priority > x.priority {
      var t := s[1..];
      InsertKeepsOrder(x, t);
      InsertBounded(x, t, s[0].priority);
    }
  }

  /** The sort orders by descending priority and keeps every result. */
  lemma {:induction false} SortSpec(s: seq<SearchResult>)
    ensures ByPriority(SortByPriority(s)) && multiset(SortByPriority(s)) == multiset(s)
  {
    if s != [] {
      SortSpec(s[1..]);
      InsertKeepsOrder(s[0], SortByPriority(s[1..]));
    }
  }

  /** A list already in descending priority is left as it is. */
  lemma {:induction false} SortKeepsSorted(s: seq<SearchResult>)
    requires ByPriority(s)
    ensures SortByPriority(s) == s
  {
    if s != [] {
      SortKeepsSorted(s[1..]);
      assert s == [s[0]] + s[1..];
    }
  }

  /** What `search` returns (lines 33-59): the local results of the matching
      pages followed by the Google result, sorted by priority. */
  function Ranked(pages: seq<Page>, query: string, quotePlus: string -> string): seq<SearchResult> {
    SortByPriority(LocalResults(Matching(pages, query)) + [GoogleResult(query, quotePlus)])
  }

  /** The sort changes nothing: there is always at least one result; there
      is one per matching page plus one; the local results come first, in
      page order, and the last is the Google search with priority 0. */
  lemma RankedSpec(pages: seq<Page>, query: string, quotePlus: string -> string)
    ensures Ranked(pages, query, quotePlus)
            == LocalResults(Matching(pages, query)) + [GoogleResult(query, quotePlus)]
    ensures var r := Ranked(pages, query, quotePlus);
            && |r| == |Matching(pages, query)| + 1
            && r[|r| - 1] == GoogleResult(query, quotePlus) && r[|r| - 1].priority == 0
            && r[|r| - 1].url == GoogleSearchUrl + quotePlus(query)
            && forall k :: 0 <= k < |r| - 1 ==> r[k] == LocalResult(Matching(pages, query)[k])
  {
    var local := LocalResults(Matching(pages, query));
    var s := local + [GoogleResult(query, quotePlus)];
    assert forall k :: 0 <= k < |s| ==> s[k].priority == if k < |local| then 1 else 0;
    SortKeepsSorted(s);
  }

  // -------------------------------------------------------- the engine

  class SearchEngine {
    /** `local_server_url`, without trailing "/". */
    var localServerUrl: string
    var templatesDir: string
    var localPages: seq<Page>

    /** Lines 11-14: the engine strips the trailing "/" of the server URL and
        discovers its pages once, when it is built. */
    constructor (url: string, templatesDir: string, dirExists: bool, walk: seq<Folder>,
                 sep: char, titleCase: string -> string)
      ensures localServerUrl == RStripChar(url, '/') && this.templatesDir == templatesDir
      ensures localPages == if dirExists then WalkPages(Layout(localServerUrl, sep, titleCase), walk) else []
    {
      localServerUrl := RStripChar(url, '/');
      this.templatesDir := templatesDir;
      new;
      localPages := DiscoverLocalPages(Layout(localServerUrl, sep, titleCase), dirExists, walk);
    }

    /** Lines 33-59: collect the local result of every matching page, append
        the Google result, and sort by priority. */
    method Search(query: string, quotePlus: string -> string) returns (results: seq<SearchResult>)
      ensures results == Ranked(localPages, query, quotePlus)
    {
      results := [];
      for i := 0 to |localPages|
        invariant results == LocalResults(Matching(localPages[..i], query))
      {
        var page := localPages[i];
        LocalResultsStep(localPages, i, query);
        if Contains(Lower(page.title), Lower(query)) || Contains(Lower(page.path), Lower(query)) {
          results := results + [LocalResult(page)];
        }
      }
      assert localPages[..|localPages|] == localPages;
      results := results + [GoogleResult(query, quotePlus)];
      results := SortByPriority(results);
    }
  }

  // ----------------------------------------------------------- navigation

  const AboutBlank: string := "about:blank"

  /** Line 122: the text names a web or file address. */
  predicate IsAddress(s: string) {
    StartsWith(s, "http://") || StartsWith(s, "https://") || StartsWith(s, "file://")
  }

  /** Lines 128-138, `_handle_search_query`: the URL of the top result, or a
      blank page when there is no result. */
  function SearchTarget(pages: seq<Page>, query: string, quotePlus: string -> string): string {
    var results := Ranked(pages, query, quotePlus);
    if results != [] then results[0].url else AboutBlank
  }

  /** Lines 111-126, `_navigate_to_url`: what the tab loads for the text of
      its address bar. */
  function NavigateTarget(text: string, pages: seq<Page>, quotePlus: string -> string): string {
    var url := Strip(text);
    if url == [] then AboutBlank
    else if IsAddress(url) then url
    else SearchTarget(pages, url, quotePlus)
  }

  /** Blank text loads "about:blank"; an http, https or file address is
      loaded unchanged; anything else loads the first matching local page,
      or the Google search for it when no page matches.  The blank-page
      fallback of `_handle_search_query` is never taken. */
  lemma NavigateSpec(text: string, pages: seq<Page>, quotePlus: string -> string)
    ensures AllSpace(text) ==> NavigateTarget(text, pages, quotePlus) == AboutBlank
    ensures !AllSpace(text) && IsAddress(Strip(text)) ==>
              NavigateTarget(text, pages, quotePlus) == Strip(text)
    ensures var q := Strip(text);
            !AllSpace(text) && !IsAddress(q) ==>
              NavigateTarget(text, pages, quotePlus)
              == if Matching(pages, q) != [] then Matching(pages, q)[0].url
                 else GoogleSearchUrl + quotePlus(q)
  {
    var q := Strip(text);
    if !AllSpace(text) && !IsAddress(q) {
      RankedSpec(pages, q, quotePlus);
    }
  }

  /** A browser tab: the URL its view shows and whether its error label is visible. */
  class BrowserTab {
    var url: string
    var statusVisible: bool

    /** Lines 64-67: a new tab shows a blank page. */
    constructor ()
      ensures url == AboutBlank && !statusVisible
    {
      url := AboutBlank;
      statusVisible := false;
    }

    /** Lines 111-138: hide the error label and load the target of the typed
        text; a search builds a fresh engine (`engine` here) and loads its
        top result. */
    method NavigateToUrl(text: string, engine: SearchEngine, quotePlus: string -> string)
      modifies this
      ensures url == NavigateTarget(text, engine.localPages, quotePlus) && !statusVisible
    {
      var target := Strip(text);
      statusVisible := false;
      if target == [] {
        url := AboutBlank;
      } else if IsAddress(target) {
        url := target;
      } else {
        var results := engine.Search(target, quotePlus);
        url := if results != [] then results[0].url else AboutBlank;
      }
    }
  }

  /** The window: its tabs, with their titles, in tab-bar order. */
  class BrowserWindow {
    var tabs: seq<BrowserTab>
    var titles: seq<string>

    ghost predicate Valid()
      reads this
    {
      |tabs| >= 1 && |titles| == |tabs|
    }

    /** Lines 160-172: the window opens with one tab, "Home". */
    constructor ()
      ensures Valid() && titles == ["Home"] && |tabs| == 1 && tabs[0].url == AboutBlank
    {
      tabs := [];
      titles := [];
      new;
      var t := AddTab("Home");
    }

    /** Lines 179-187: a new tab is added at the end and shows a blank page. */
    method AddTab(title: string) returns (tab: BrowserTab)
      modifies this
      ensures fresh(tab) && tab.url == AboutBlank
      ensures tabs == old(tabs) + [tab] && titles == old(titles) + [title]
    {
      tab := new BrowserTab();
      tabs := tabs + [tab];
      titles := titles + [title];
    }

    /** Lines 189-194: the tab at `index` is closed only when more than one
        tab is open, so the window always keeps at least one tab.  An index
        that names no tab closes nothing (the widget lookup fails). */
    method CloseTab(index: int)
      requires Valid()
      modifies this
      ensures Valid()
      ensures if |old(tabs)| > 1 && 0 <= index < |old(tabs)|
              then tabs == old(tabs)[..index] + old(tabs)[index + 1..]
                   && titles == old(titles)[..index] + old(titles)[index + 1..]
              else tabs == old(tabs) && titles == old(titles)
    {
      if |tabs| > 1 && 0 <= index < |tabs| {
        tabs := tabs[..index] + tabs[index + 1..];
        titles := titles[..index] + titles[index + 1..];
      }
    }
  }
}

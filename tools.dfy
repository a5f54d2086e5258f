/**
 * The two tools that open a browser page: the search, which resolves its
 * options, picks the simple or the journal-restricted search and collects the
 * result pages; and the paper detail lookup, which first checks that the URL
 * is a CNKI one.
 */
module Tools {
  import opened Wrappers
  import opened Text
  import opened Vocabulary
  import opened Extraction
  import opened Collector
  import opened Pool

  /** The detail lookup's URL check: the URL is not empty and contains
      "cnki" in any letter case. */
  predicate IsCnkiUrl(url: string) {
    url != [] && Contains(Lower(url), "cnki")
  }

  /** The error the detail lookup answers for a URL that fails the check. */
  const UrlError: string := "URL 必须是 CNKI 链接"

  /** The check does not depend on letter case. */
  lemma CnkiCheckIgnoresCase(url: string)
    ensures IsCnkiUrl(Upper(url)) == IsCnkiUrl(url)
    ensures IsCnkiUrl(Lower(url)) == IsCnkiUrl(url)
  {
    assert Lower(Upper(url)) == Lower(url);
    LowerProperties(url);
  }

  /** Any URL with "cnki", in whatever letter case, somewhere in it passes. */
  lemma CnkiCheckAccepts(p: string, w: string, q: string)
    requires Lower(w) == "cnki"
    ensures IsCnkiUrl(p + w + q)
  {
    LowerConcat(p + w, q);
    LowerConcat(p, w);
    var l := Lower(p + w + q);
    assert l == Lower(p) + "cnki" + Lower(q);
    assert OccursAt(l, "cnki", |p|);
  }

  /** A URL without the letter c in either case fails the check; so does the
      empty URL. */
  lemma CnkiCheckRejects(url: string)
    requires 'c' !in url && 'C' !in url
    ensures !IsCnkiUrl(url)
  {
    var l := Lower(url);
    forall i | 0 <= i && i + 4 <= |l|
      ensures !OccursAt(l, "cnki", i)
    {
      assert l[i..i + 4][0] == l[i] == LowerChar(url[i]) != 'c';
    }
  }

  /** What the detail lookup answers: the URL error; the failure of the
      extraction on the page; or the page's details, of which the model
      keeps the parts of the "year, volume(issue): pages" line. */
  datatype DetailResult =
    | Rejected(error: string)
    | ExtractionFailed(url: string)
    | Detail(url: string, info: InfoFields)

  /** `get_paper_detail`: a URL that fails the check is answered with the
      URL error before any page is opened; otherwise a page is taken from
      the pool at time `now` (`alive` is the held browser's connection
      state) and the details are read. `infoText` is the text of the info
      line on the detail page, or None when the extraction raised. */
  method GetPaperDetail(pool: BrowserPool, url: string, now: int, alive: bool, infoText: Option<string>)
    returns (r: DetailResult)
    requires pool.Valid()
    modifies pool
    ensures pool.Valid()
    ensures r.Rejected? <==> !IsCnkiUrl(url)
    ensures r.Rejected? ==> r.error == UrlError && unchanged(pool)
    ensures !r.Rejected? ==> pool.browser.Some? && pool.lastUsed == now
    ensures r.ExtractionFailed? <==> IsCnkiUrl(url) && infoText.None?
    ensures r.ExtractionFailed? ==> r.url == url
    ensures r.Detail? ==> r.url == url && r.info == ParseInfoLine(infoText.value)
  {
    if !IsCnkiUrl(url) {
      return Rejected(UrlError);
    }
    var b := pool.GetPage(now, alive);
    match infoText
    case None =>
      r := ExtractionFailed(url);
    case Some(info) =>
      r := Detail(url, ParseInfoLine(info));
  }

  /** A journal given and not empty: the search is then restricted to it
      (Python's `if journal:`). */
  predicate HasJournal(journal: Option<string>) {
    journal.Some? && journal.value != []
  }

  /** The answer of a search; `restriction` holds the journal and the
      submitted expression for a journal-restricted search. The two page
      actions the search takes on the way are recorded too: the field menu
      entry the simple search clicks (None when the menu is left alone) and
      the sort control clicked on the results (None when the default order
      is kept). */
  datatype SearchResult = SearchResult(
    query: string,
    searchType: string,
    sort: string,
    restriction: Option<(string, string)>,
    fieldMenu: Option<string>,
    sortControl: Option<string>,
    totalPages: int,
    papers: seq<Record>)

  /** `search_cnki`: take a page from the pool, resolve the field and the
      order, run the journal-restricted search when a journal is given and
      the simple one (with its field menu) otherwise, click the sort control
      for a non-default order, and collect `pages` result pages, which show
      `views`. */
  method SearchCnki(pool: BrowserPool, now: int, alive: bool,
                    query: string, searchType: string, journal: Option<string>,
                    pages: int, sort: string, views: seq<PageView>)
    returns (r: SearchResult)
    requires pool.Valid()
    requires 1 <= pages <= 10 && pages <= |views|
    modifies pool
    ensures pool.Valid() && pool.browser.Some? && pool.lastUsed == now
    ensures r.query == query && r.totalPages == pages
    ensures r.searchType == ResolveSearchType(searchType) && r.searchType in SearchTypes
    ensures r.sort == ResolveSortType(sort) && r.sort in SortTypes
    ensures r.restriction.Some? <==> HasJournal(journal)
    ensures r.restriction.Some? ==>
      r.restriction.value == (journal.value, ProfessionalExpression(searchType, query, journal.value))
    ensures r.fieldMenu == if HasJournal(journal) then None else FieldMenuValue(searchType)
    ensures r.fieldMenu.Some? ==> SearchTypes[r.searchType] + "$" <= r.fieldMenu.value
    ensures r.sortControl == SortControlId(sort)
    ensures r.sortControl.Some? <==> r.sort != DefaultSort
    ensures r.papers == Gathered(ParsePaperRow, views, Visited(views, pages))
  {
    var b := pool.GetPage(now, alive);
    var resolvedType := ResolveSearchType(searchType);
    var resolvedSort := ResolveSortType(sort);
    var restriction: Option<(string, string)> := None;
    var fieldMenu: Option<string> := None;
    if HasJournal(journal) {
      var expr := Expression(FieldCode(resolvedType), query, journal.value);
      restriction := Some((journal.value, expr));
    } else {
      fieldMenu := FieldMenuValue(searchType);
    }
    var sortControl := SortControlId(sort);
    var papers := CollectResults(ParsePaperRow, views, pages);
    r := SearchResult(query, resolvedType, resolvedSort, restriction, fieldMenu, sortControl, pages, papers);
  }
}

/**
 * The result collector: walks the result pages one after the other, turns
 * every row into a paper record, keeps the titled ones tagged with their page
 * number, and moves on through the "next page" control until the requested
 * number of pages is reached or the control is missing, disabled or fails.
 *
 * What the browser shows on each page is an input: `views[k - 1]` is what page
 * k shows when the walk reaches it. The row parser is a parameter `parse`,
 * which the search sets to `ParsePaperRow`; what is proved here holds for any
 * parser.
 */
module Collector {
  import opened Wrappers
  import opened Extraction

  /** What listing the result rows of a page gives: the listing raised; or
      the rows listed, and when none were, what listing them again after
      waiting for the table gives (None when the wait timed out or the
      second listing raised). */
  datatype RowsView =
    | ListingFails
    | Listed(initial: seq<Row>, afterWait: Option<seq<Row>>)

  /** What asking for the next-page control gives: no such control, a
      disabled one, an enabled one that is clicked, or a lookup, check or
      click that raised. */
  datatype NextControl = NextAbsent | NextDisabled | NextEnabled | NextRaises

  datatype PageView = PageView(rows: RowsView, next: NextControl)

  /** A collected paper with the number of the page it was found on. */
  datatype Record = Record(paper: Paper, page: int)

  /** The rows a page yields; a page whose listing fails yields none. */
  function PageRows(v: RowsView): seq<Row> {
    match v
    case ListingFails => []
    case Listed(initial, afterWait) =>
      if initial != [] then initial
      else if afterWait.Some? then afterWait.value
      else []
  }

  /** The records kept from rows `rows` of page `k`: every row whose parsed
      record has a non-empty title, in row order, tagged with `k`. */
  function Kept(parse: Row -> Paper, rows: seq<Row>, k: int): seq<Record> {
    if rows == [] then []
    else
      var last := parse(rows[|rows| - 1]);
      Kept(parse, rows[..|rows| - 1], k) + (if last.title != [] then [Record(last, k)] else [])
  }

  /** A page keeps at most one record per row, each with a title and the
      page's number. */
  lemma {:induction false} KeptTagged(parse: Row -> Paper, rows: seq<Row>, k: int)
    ensures |Kept(parse, rows, k)| <= |rows|
    ensures forall i :: 0 <= i < |Kept(parse, rows, k)| ==>
      Kept(parse, rows, k)[i].page == k && Kept(parse, rows, k)[i].paper.title != []
  {
    if rows != [] {
      KeptTagged(parse, rows[..|rows| - 1], k);
    }
  }

  /** The records page `k` contributes. */
  function PageRecords(parse: Row -> Paper, view: PageView, k: int): seq<Record> {
    Kept(parse, PageRows(view.rows), k)
  }

  /** The records of every page, page `k` being at index `k - 1`. */
  function PerPage(parse: Row -> Paper, views: seq<PageView>): (recs: seq<seq<Record>>)
    ensures |recs| == |views|
  {
    seq(|views|, i requires 0 <= i < |views| => PageRecords(parse, views[i], i + 1))
  }

  /** The first `n` lists of `recs`, one after the other. */
  function Flat(recs: seq<seq<Record>>, n: nat): seq<Record>
    requires n <= |recs|
  {
    if n == 0 then [] else Flat(recs, n - 1) + recs[n - 1]
  }

  /** The records of the first `n` pages, in page order. */
  function Gathered(parse: Row -> Paper, views: seq<PageView>, n: nat): seq<Record>
    requires n <= |views|
  {
    Flat(PerPage(parse, views), n)
  }

  /** Every record at index `i` of `recs` has a title and is tagged with
      page `i + 1`. */
  ghost predicate PagesTagged(recs: seq<seq<Record>>) {
    forall i, m :: 0 <= i < |recs| && 0 <= m < |recs[i]| ==>
      recs[i][m].page == i + 1 && recs[i][m].paper.title != []
  }

  lemma PerPageTagged(parse: Row -> Paper, views: seq<PageView>)
    ensures PagesTagged(PerPage(parse, views))
  {
    var recs: seq<seq<Record>> := PerPage(parse, views);
    forall i | 0 <= i < |recs|
      ensures forall m :: 0 <= m < |recs[i]| ==> recs[i][m].page == i + 1 && recs[i][m].paper.title != []
    {
      KeptTagged(parse, PageRows(views[i].rows), i + 1);
      assert recs[i] == Kept(parse, PageRows(views[i].rows), i + 1);
    }
  }

  /** The walk asked for `pages` pages stops on page `n`: the next control
      after every page before `n` is an enabled one, and `n` is the last
      requested page or its next control is not an enabled one. */
  ghost predicate StopsAt(views: seq<PageView>, pages: int, n: int)
    requires pages <= |views|
  {
    && 1 <= n <= pages
    && (forall i :: 0 <= i < n - 1 ==> views[i].next.NextEnabled?)
    && (n < pages ==> !views[n - 1].next.NextEnabled?)
  }

  /** The page the walk stops on, starting from page `k`: the first page
      from `k` on that is the last requested one or whose next control is
      not an enabled one that could be clicked. */
  function StopFrom(views: seq<PageView>, k: int, pages: int): (stop: int)
    requires 1 <= k <= pages <= |views|
    ensures k <= stop <= pages
    decreases pages - k
  {
    if k == pages || !views[k - 1].next.NextEnabled? then k
    else StopFrom(views, k + 1, pages)
  }

  /** How many pages the walk visits when asked for `pages` of them: none
      when `pages` is below 1, otherwise the page it stops on. */
  ghost function Visited(views: seq<PageView>, pages: int): (n: nat)
    requires pages <= |views|
    ensures n <= |views|
    ensures pages <= 0 ==> n == 0
    ensures pages >= 1 ==> StopsAt(views, pages, n)
  {
    if pages <= 0 then 0
    else
      StopFromMeaning(views, 1, pages);
      assert StopsAt(views, pages, StopFrom(views, 1, pages));
      var n :| StopsAt(views, pages, n);
      n
  }

  /** `_collect_results`: the page loop. */
  method CollectResults(parse: Row -> Paper, views: seq<PageView>, pages: int) returns (papers: seq<Record>)
    requires pages <= |views|
    ensures papers == Gathered(parse, views, Visited(views, pages))
  {
    ghost var n := Visited(views, pages);
    papers := [];
    var pageNum := 1;
    while pageNum <= pages
      invariant 1 <= pageNum <= n || (pageNum == 1 && n == 0)
      invariant papers == Gathered(parse, views, pageNum - 1)
      decreases pages - pageNum
    {
      var kept := CollectPage(parse, views[pageNum - 1], pageNum);
      GatheredStep(parse, views, pageNum, papers, kept);
      papers := papers + kept;
      if pageNum < pages && views[pageNum - 1].next.NextEnabled? {
        pageNum := pageNum + 1;
      } else {
        return;
      }
    }
  }

  /** Visiting one more page appends that page's records. */
  lemma GatheredStep(parse: Row -> Paper, views: seq<PageView>, n: nat, prev: seq<Record>, page: seq<Record>)
    requires 1 <= n <= |views|
    requires prev == Gathered(parse, views, n - 1) && page == PageRecords(parse, views[n - 1], n)
    ensures prev + page == Gathered(parse, views, n)
  {
    assert PerPage(parse, views)[n - 1] == PageRecords(parse, views[n - 1], n);
  }

  /** One page: list its rows and, row by row, parse each and keep the
      titled ones, tagged with the page number. */
  method CollectPage(parse: Row -> Paper, view: PageView, pageNum: int) returns (kept: seq<Record>)
    ensures kept == PageRecords(parse, view, pageNum)
  {
    var rows := PageRows(view.rows);
    kept := [];
    var j := 0;
    while j < |rows|
      invariant 0 <= j <= |rows|
      invariant kept == Kept(parse, rows[..j], pageNum)
    {
      var paper := parse(rows[j]);
      assert rows[..j + 1][..j] == rows[..j];
      if paper.title != [] {
        kept := kept + [Record(paper, pageNum)];
      }
      j := j + 1;
    }
    assert rows[..|rows|] == rows;
  }

  /** The recursive walk from page `k` goes on past every page before the
      one it stops on, and stops early only on a page whose next control is
      not an enabled one. */
  lemma {:induction false} StopFromMeaning(views: seq<PageView>, k: int, pages: int)
    requires 1 <= k <= pages <= |views|
    ensures var n := StopFrom(views, k, pages);
      && (forall i :: k - 1 <= i < n - 1 ==> views[i].next.NextEnabled?)
      && (n < pages ==> !views[n - 1].next.NextEnabled?)
    decreases pages - k
  {
    if k < pages && views[k - 1].next.NextEnabled? {
      StopFromMeaning(views, k + 1, pages);
    }
  }

  /** The walk has one stopping page: when the next control works after
      each page before `n` and not after page `n` (or `n` is the last
      requested page), exactly `n` pages are visited. */
  lemma StopsExactlyAt(views: seq<PageView>, pages: int, n: int)
    requires pages <= |views|
    requires StopsAt(views, pages, n)
    ensures Visited(views, pages) == n
  {
  }

  /** The pages visited are the ones the recursive walk from page 1 goes
      through. */
  lemma VisitedIsWalk(views: seq<PageView>, pages: int)
    requires 1 <= pages <= |views|
    ensures Visited(views, pages) == StopFrom(views, 1, pages)
  {
    StopFromMeaning(views, 1, pages);
    StopsExactlyAt(views, pages, StopFrom(views, 1, pages));
  }

  /** How far the walk goes depends on the next controls only: what the
      rows of a page show, even a failed listing, never ends the walk. */
  lemma WalkIgnoresRows(views: seq<PageView>, views': seq<PageView>, pages: int)
    requires pages <= |views| == |views'|
    requires forall i :: 0 <= i < |views| ==> views[i].next == views'[i].next
    ensures Visited(views, pages) == Visited(views', pages)
  {
    if pages >= 1 {
      StopsExactlyAt(views', pages, Visited(views, pages));
    }
  }

  /** In a flattening of page lists tagged with their page numbers, every
      record has a title and the number of one of the first `n` pages, and
      the page numbers never decrease. */
  lemma {:induction false} FlatInOrder(recs: seq<seq<Record>>, n: nat)
    requires n <= |recs| && PagesTagged(recs)
    ensures forall i :: 0 <= i < |Flat(recs, n)| ==>
      Flat(recs, n)[i].paper.title != [] && 1 <= Flat(recs, n)[i].page <= n
    ensures forall i, j :: 0 <= i < j < |Flat(recs, n)| ==> Flat(recs, n)[i].page <= Flat(recs, n)[j].page
  {
    if n > 0 {
      FlatInOrder(recs, n - 1);
    }
  }

  /** Every collected record has a title and the number of a visited page,
      and the page numbers never decrease along the result. */
  lemma GatheredInOrder(parse: Row -> Paper, views: seq<PageView>, n: nat)
    requires n <= |views|
    ensures forall i :: 0 <= i < |Gathered(parse, views, n)| ==>
      Gathered(parse, views, n)[i].paper.title != [] && 1 <= Gathered(parse, views, n)[i].page <= n
    ensures forall i, j :: 0 <= i < j < |Gathered(parse, views, n)| ==>
      Gathered(parse, views, n)[i].page <= Gathered(parse, views, n)[j].page
  {
    PerPageTagged(parse, views);
    FlatInOrder(PerPage(parse, views), n);
  }

  /** Collected records carry a non-empty title and a page number in
      1..pages, in non-decreasing page order. */
  lemma CollectedAreTitledAndOrdered(parse: Row -> Paper, views: seq<PageView>, pages: int)
    requires pages <= |views|
    ensures var papers := Gathered(parse, views, Visited(views, pages));
      && (forall i :: 0 <= i < |papers| ==> papers[i].paper.title != [] && 1 <= papers[i].page <= pages)
      && (forall i, j :: 0 <= i < j < |papers| ==> papers[i].page <= papers[j].page)
  {
    GatheredInOrder(parse, views, Visited(views, pages));
  }

  /** The records tagged with page `j`, in order. */
  function OnPage(records: seq<Record>, j: int): seq<Record> {
    if records == [] then []
    else OnPage(records[..|records| - 1], j)
         + (if records[|records| - 1].page == j then [records[|records| - 1]] else [])
  }

  lemma {:induction false} OnPageConcat(a: seq<Record>, b: seq<Record>, j: int)
    ensures OnPage(a + b, j) == OnPage(a, j) + OnPage(b, j)
    decreases |b|
  {
    if b != [] {
      var b' := b[..|b| - 1];
      assert (a + b)[..|a + b| - 1] == a + b';
      OnPageConcat(a, b', j);
    } else {
      assert a + b == a;
    }
  }

  /** A list of records all tagged `k` is kept whole when asking for page
      `k`, and gives nothing for any other page. */
  lemma {:induction false} OnPageUniform(records: seq<Record>, k: int, j: int)
    requires forall m :: 0 <= m < |records| ==> records[m].page == k
    ensures OnPage(records, j) == if j == k then records else []
    decreases |records|
  {
    if records != [] {
      var init := records[..|records| - 1];
      OnPageUniform(init, k, j);
      assert records == init + [records[|records| - 1]];
    }
  }

  /** Appending a list of records all tagged `n` adds that list to page
      `n` and nothing to any other page. */
  lemma OnPageAppend(prev: seq<Record>, page: seq<Record>, n: int, j: int)
    requires forall m :: 0 <= m < |page| ==> page[m].page == n
    ensures OnPage(prev + page, j) == OnPage(prev, j) + if j == n then page else []
  {
    OnPageConcat(prev, page, j);
    OnPageUniform(page, n, j);
  }

  lemma {:induction false} FlatByPage(recs: seq<seq<Record>>, n: nat, j: int)
    requires n <= |recs| && PagesTagged(recs)
    ensures OnPage(Flat(recs, n), j) == if 1 <= j <= n then recs[j - 1] else []
  {
    if n > 0 {
      FlatByPage(recs, n - 1, j);
      assert Flat(recs, n) == Flat(recs, n - 1) + recs[n - 1];
      OnPageStep(Flat(recs, n - 1), recs[n - 1], n, j, if 1 <= j < n then recs[j - 1] else []);
    }
  }

  /** The induction step of `FlatByPage`, on the lists alone. */
  lemma OnPageStep(prev: seq<Record>, page: seq<Record>, n: int, j: int, earlier: seq<Record>)
    requires forall m :: 0 <= m < |page| ==> page[m].page == n
    requires OnPage(prev, j) == if 1 <= j < n then earlier else []
    ensures OnPage(prev + page, j) == if 1 <= j < n then earlier else if j == n then page else []
  {
    OnPageAppend(prev, page, n, j);
    if j == n {
      assert OnPage(prev, j) + page == page;
    } else {
      assert OnPage(prev, j) + [] == OnPage(prev, j);
    }
  }

  /** Page by page: the records tagged `j` are exactly what page `j` shows
      when it was visited, and there are none for any other page number. */
  lemma GatheredByPage(parse: Row -> Paper, views: seq<PageView>, n: nat, j: int)
    requires n <= |views|
    ensures 1 <= j <= n ==> OnPage(Gathered(parse, views, n), j) == PageRecords(parse, views[j - 1], j)
    ensures !(1 <= j <= n) ==> OnPage(Gathered(parse, views, n), j) == []
  {
    PerPageTagged(parse, views);
    FlatByPage(PerPage(parse, views), n, j);
    if 1 <= j <= n {
      assert PerPage(parse, views)[j - 1] == PageRecords(parse, views[j - 1], j);
    }
  }

  /** A page whose row listing fails contributes no record, and the pages
      after it are collected all the same. */
  lemma FailedPageIsSkipped(parse: Row -> Paper, views: seq<PageView>, pages: int, k: int, rows: RowsView)
    requires pages <= |views|
    requires 1 <= k <= Visited(views, pages)
    requires views[k - 1].rows == ListingFails
    ensures OnPage(Gathered(parse, views, Visited(views, pages)), k) == []
    ensures Visited(views[k - 1 := PageView(rows, views[k - 1].next)], pages) == Visited(views, pages)
  {
    FailedPageIsEmpty(parse, views, Visited(views, pages), k);
    OtherRowsSameWalk(views, pages, k, rows);
  }

  lemma OtherRowsSameWalk(views: seq<PageView>, pages: int, k: int, rows: RowsView)
    requires pages <= |views| && 1 <= k <= |views|
    ensures Visited(views[k - 1 := PageView(rows, views[k - 1].next)], pages) == Visited(views, pages)
  {
    var views' := views[k - 1 := PageView(rows, views[k - 1].next)];
    assert forall i :: 0 <= i < |views| ==> views'[i].next == views[i].next;
    WalkIgnoresRows(views', views, pages);
  }

  lemma FailedPageIsEmpty(parse: Row -> Paper, views: seq<PageView>, n: nat, k: int)
    requires 1 <= k <= n <= |views|
    requires views[k - 1].rows == ListingFails
    ensures OnPage(Gathered(parse, views, n), k) == []
  {
    GatheredByPage(parse, views, n, k);
  }

  /** Two pages asked for, ten titled rows on the first, five on the second
      and a working next control after the first: fifteen records, the
      first ten from page 1 and the last five from page 2. */
  lemma TwoPageScenario(parse: Row -> Paper, views: seq<PageView>)
    requires 2 <= |views|
    requires views[0].next == NextEnabled
    requires |PageRecords(parse, views[0], 1)| == 10 && |PageRecords(parse, views[1], 2)| == 5
    ensures Visited(views, 2) == 2
    ensures |Gathered(parse, views, 2)| == 15
    ensures forall i :: 0 <= i < 15 ==> Gathered(parse, views, 2)[i].page == if i < 10 then 1 else 2
  {
    StopsExactlyAt(views, 2, 2);
    var first, second := PageRecords(parse, views[0], 1), PageRecords(parse, views[1], 2);
    KeptTagged(parse, PageRows(views[0].rows), 1);
    KeptTagged(parse, PageRows(views[1].rows), 2);
    GatheredStep(parse, views, 1, [], first);
    assert [] + first == first;
    GatheredStep(parse, views, 2, first, second);
  }
}

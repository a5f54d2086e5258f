# CNKI search server: pool, vocabulary, matcher, extraction and collector

A Dafny model of the logic of `cnki_mcp_server.py`, an MCP server that searches the
CNKI paper portal through a scripted browser. The browser is not modelled. What it
shows or answers (rows, links, element texts, whether the next-page control is
enabled, whether the browser is still connected) is given to the model as input
values. The model covers the following, one module each:

- `Text` (`text.dfy`): the Python string operations the server relies on, written
  out. `str.strip` uses Python's exact white-space set. `str.split` keeps empty
  pieces. `lower` and `in` on strings are also here.
- `Vocabulary` (`vocabulary.dfy`):
  - the fixed tables of search fields, field-menu values, aliases, sort orders and
    professional-search codes;
  - `resolve_search_type` and `resolve_sort_type`;
  - the field-menu and sort-control lookups of the simple search;
  - the professional-search expression, with a reader that parses it back.
- `Matcher` (`matcher.dfy`):
  - the character-membership score;
  - the argmax loop of `find_closest_title`;
  - the link-reading loop and the outcome of `find_best_match`.
- `Extraction` (`extraction.dfy`):
  - the field-by-field defaults of `_parse_paper_row`;
  - the split of a detail page's "year, volume(issue): pages" line, written with
    Python's `split` as the source writes it.
- `Collector` (`collector.dfy`): the page loop of `_collect_results`. It is a method
  proved against a function: `Gathered` of the `Visited` pages. Lemmas give the
  page-by-page meaning of that function. The row parser is a parameter, so what is
  proved holds for any parser. `Tools.SearchCnki` passes `Extraction.ParsePaperRow`.
- `Pool` (`pool.dfy`): `BrowserPool` as a class. It has the fields `playwright`,
  `browser` and `lastUsed`, an integer handle counter, and a ghost trace of what it
  did to the engine and the browsers. Its invariant says the trace is well formed:
  - a browser is launched only when none is held and the engine runs;
  - only the held browser is closed or dropped;
  - the engine is stopped only after the browser is gone.
- `Tools` (`tools.dfy`):
  - `search_cnki`'s choice between the simple and the journal-restricted search;
  - `get_paper_detail`'s URL check, which runs before a page is taken from the pool.

## Model

| member | source | states |
|---|---|---|
| Vocabulary.ResolveSearchType | cnki_mcp_server.py:156-164 | the resolved search field is always a key of the field table |
| Vocabulary.ResolveSortType | cnki_mcp_server.py:167-175 | the resolved sort order is always a key of the sort table |
| Vocabulary.SearchAliasResolves | cnki_mcp_server.py:156-161 | an alias resolves to its field. This holds for any spelling that lower-cases to the alias (any mix of ASCII letter cases), with any white space around it |
| Vocabulary.SortAliasResolves | cnki_mcp_server.py:167-172 | an alias resolves to its sort order. This holds for any spelling that lower-cases to the alias (any mix of ASCII letter cases), with any white space around it |
| Vocabulary.UpperAliasResolves | cnki_mcp_server.py:156-161 | the all-upper-case spelling of an alias resolves to the alias's field |
| Vocabulary.CanonicalSearchTypeIsFixed | cnki_mcp_server.py:162-163 | every canonical field name, written exactly, resolves to itself |
| Vocabulary.CanonicalSortIsFixed | cnki_mcp_server.py:173-174 | every canonical sort name, written exactly, resolves to itself |
| Vocabulary.UnknownSearchTypeDefaults | cnki_mcp_server.py:156-164 | an empty or unrecognised name resolves to the default field 主题 |
| Vocabulary.UnknownSortDefaults | cnki_mcp_server.py:167-175 | an empty or unrecognised name resolves to the default order 相关度 |
| Vocabulary.SearchAliasTable | cnki_mcp_server.py:28-50 | every search alias is a lower-case ASCII word, and its target is a canonical field |
| Vocabulary.SortAliasTable | cnki_mcp_server.py:52-62 | every sort alias is a lower-case ASCII word, and its target is a canonical order |
| Vocabulary.SearchTablesAgree | cnki_mcp_server.py:28-41 | the field-menu table has the same keys as the field table, and each menu value starts with that field's code and `$` |
| Vocabulary.FieldMenuValue | cnki_mcp_server.py:279-287 | the field menu is used exactly when the resolved field is not the default: the `.get` never misses and the entry is never empty, so the skip of `if value:` never happens. The entry clicked starts with the resolved field's code and `$` |
| Vocabulary.MenuValuesDistinct | cnki_mcp_server.py:35-41 | no two fields share a menu entry |
| Vocabulary.FieldMenuNamesField | cnki_mcp_server.py:279-284 | two names that open the menu at the same entry resolve to the same field |
| Vocabulary.SortControlId | cnki_mcp_server.py:291-299 | the sort control is clicked exactly when the resolved order is not the default: the `.get` never misses and no id is empty. The control id is that order's id |
| Vocabulary.SortIdsDistinct | cnki_mcp_server.py:52-55 | every sort id is non-empty and no two orders share one |
| Vocabulary.SortControlNamesOrder | cnki_mcp_server.py:291-293 | two names that click the same sort control resolve to the same order |
| Vocabulary.FieldCode | cnki_mcp_server.py:313 | a resolved field with a professional-search code uses that code. Any other field uses `SU`. A code never contains a quote |
| Vocabulary.ExpressionRoundTrip | cnki_mcp_server.py:315 | when the code, query and journal contain no quote, the expression `(code='query') AND (JN='journal')` parses back to exactly those three |
| Vocabulary.ProfessionalExpressionRoundTrip | cnki_mcp_server.py:311-315 | the submitted expression names the resolved field's code, the query and the journal, and nothing else |
| Matcher.Score | cnki_mcp_server.py:182 | the score never exceeds the query's length |
| Matcher.ScoreExtremes | cnki_mcp_server.py:182 | the score equals the query's length exactly when every query character occurs in the title. It is 0 exactly when none does |
| Matcher.ScoreMonotone | cnki_mcp_server.py:182 | a title containing every character of another title scores at least as high |
| Matcher.ScoreDependsOnCharacterSet | cnki_mcp_server.py:182 | two titles with the same set of characters get the same score |
| Matcher.FirstBestIsUnique | cnki_mcp_server.py:181-185 | at most one index can be the first index of the highest score |
| Matcher.FindClosestTitle | cnki_mcp_server.py:178-186 | it returns 0 for no titles. Otherwise it returns a valid index whose score is at least every title's score and above every earlier title's score. So every score 0 gives 0 |
| Matcher.CandidatesAreTitled | cnki_mcp_server.py:555-560 | the gathered titles are non-empty and already stripped. There are never more of them than links |
| Matcher.GatherCandidates | cnki_mcp_server.py:551-562 | the titles and URLs the reading loop collects are exactly the candidates: blank titles are skipped, a missing href becomes "", and reading stops at the first link that raises |
| Matcher.FindBestMatch | cnki_mcp_server.py:551-572 | no match exactly when there is no candidate. Otherwise the match is the candidate at the closest title's index, and the total is the number of candidates |
| Extraction.FieldText | cnki_mcp_server.py:217-237 | a found element gives its stripped text. A missing element or a failed read gives the field's default |
| Extraction.NonBlankMeaning | cnki_mcp_server.py:213-214 | the author list contains no blank name and never more names than links. It is every text, stripped, when none is blank, and empty when all are blank |
| Extraction.ParsePaperRow | cnki_mcp_server.py:203-238 | the title and URL come from the title link; both are "" when the link is missing or reading it raises. The authors default to []. Source and date default to "". The two counts default to "0" |
| Extraction.FieldsAreIsolated | cnki_mcp_server.py:205-237 | each field of the record depends only on its own element, so a failing element changes no other field |
| Extraction.TitledOnlyFromTitleLink | cnki_mcp_server.py:205-211 | a record has a title exactly when its title link was found and its text is not blank |
| Extraction.InfoLineMeaning | cnki_mcp_server.py:398-408 | with no comma nothing is set. Otherwise the year is the stripped text before the first comma. The second comma piece gives volume and issue, and the pages |
| Extraction.VolumeAndIssueMeaning | cnki_mcp_server.py:403-405 | volume and issue are set only when the piece holds both `(` and `)`. They are the texts before the first `(` and between it and the next bracket |
| Extraction.PagesMeaning | cnki_mcp_server.py:406-407 | pages are set only when the piece holds a `:`. They are the stripped text after the last `:` |
| Extraction.InfoLineOfSegment | cnki_mcp_server.py:398-402 | in a line `year,piece` with no other comma, the year is the stripped year and the rest comes from the piece |
| Extraction.SegmentRoundTrip | cnki_mcp_server.py:401-407 | the piece `volume(issue):pages` gives back its volume, issue and pages, stripped |
| Extraction.InfoLineRoundTrip | cnki_mcp_server.py:398-408 | a line `year,volume(issue):pages` whose parts contain no delimiter parses back into those parts, stripped |
| Collector.KeptTagged | cnki_mcp_server.py:250-253 | a page keeps at most one record per row. Each kept record has a title and carries the page's number |
| Collector.CollectPage | cnki_mcp_server.py:244-253 | the row loop of one page returns exactly the page's titled records, in row order, tagged with the page number. When the first listing is empty, the rows come from the listing after the wait. A failed listing gives none |
| Collector.CollectResults | cnki_mcp_server.py:241-268 | the page loop returns exactly the records of the visited pages, in page order |
| Collector.Visited | cnki_mcp_server.py:244-266 | no page is visited when none is asked for. Otherwise the walk stops on a page n: the next control was enabled after every page before n, and n is the last requested page or its next control is absent, disabled or failing |
| Collector.StopFromMeaning | cnki_mcp_server.py:258-266 | the page-by-page walk passes every page before its stop. It stops before the last requested page only on a page whose next control is not an enabled one |
| Collector.StopsExactlyAt | cnki_mcp_server.py:256-266 | if the next control works after each page before k and fails or is disabled after page k < N, exactly k pages are visited |
| Collector.VisitedIsWalk | cnki_mcp_server.py:244-266 | the number of visited pages is the page where the walk from page 1 stops |
| Collector.WalkIgnoresRows | cnki_mcp_server.py:244-266 | how many pages are visited depends only on the next controls, not on what the rows show |
| Collector.GatheredInOrder | cnki_mcp_server.py:250-253 | every record of the first n pages has a title and a page number in 1..n, and the numbers never decrease |
| Collector.CollectedAreTitledAndOrdered | cnki_mcp_server.py:241-268 | every collected record has a non-empty title and a page number in 1..pages, in non-decreasing order |
| Collector.GatheredByPage | cnki_mcp_server.py:242-254 | the records tagged j are exactly the titled rows of page j, in row order, when page j was visited. Otherwise there are none |
| Collector.FailedPageIsSkipped | cnki_mcp_server.py:254-255 | a page whose listing fails contributes no record, and the walk over the later pages is the same as if it had rows |
| Collector.TwoPageScenario | cnki_mcp_server.py:241-268 | two pages, 10 titled rows then 5, and a working next control give 15 records: the first 10 from page 1, the last 5 from page 2 |
| Pool.WellFormedExtend | cnki_mcp_server.py:114-151 | adding an event keeps the trace well formed exactly when the event is allowed at that point |
| Pool.AtMostOneBrowser | cnki_mcp_server.py:114-151 | in a well-formed trace, launches minus closes and drops is 1 while a browser is held and 0 otherwise, so never two browsers at once |
| Pool.BrowserNeedsEngine | cnki_mcp_server.py:143-151 | in a well-formed trace a browser is held only while the engine runs |
| Pool.BrowserPool.constructor | cnki_mcp_server.py:84-88 | a new pool has no engine and no browser, was last used at 0, and has an empty trace |
| Pool.BrowserPool.CreateBrowser | cnki_mcp_server.py:90-104 | starts the engine only when none runs, then launches a fresh browser |
| Pool.BrowserPool.CloseInternal | cnki_mcp_server.py:135-141 | a held browser is closed and forgotten. Without one nothing happens |
| Pool.BrowserPool.GetPage | cnki_mcp_server.py:114-125 | the held browser is reused exactly when it exists, has been idle at most 600 s and is alive. An idle-expired browser is closed before a new one is launched. A dead one is dropped without a close. Afterwards a browser is held and `lastUsed` is `now` |
| Pool.BrowserPool.Close | cnki_mcp_server.py:143-151 | afterwards neither a browser nor an engine is held. The trace gains a close for a held browser and a stop for a running engine. A second close adds nothing |
| Tools.CnkiCheckIgnoresCase | cnki_mcp_server.py:515 | the URL check gives the same answer for the URL in upper or lower case |
| Tools.CnkiCheckAccepts | cnki_mcp_server.py:515 | any URL containing "cnki" in any letter case passes |
| Tools.CnkiCheckRejects | cnki_mcp_server.py:515 | a URL without the letter c in either case fails, and so does the empty URL |
| Tools.GetPaperDetail | cnki_mcp_server.py:509-529 | a URL that fails the check is rejected with the URL error and the pool is untouched. Otherwise a page is taken from the pool and the info line is parsed |
| Tools.SearchCnki | cnki_mcp_server.py:470-506 | resolves field and order. A non-empty journal selects the professional search with its expression; otherwise the simple search opens the field menu at the resolved field's entry, when that field is not the default. Both click the sort control of a non-default order. The result holds the collected pages' records |

## Left out

- The browser engine: navigation, clicks, typing, selector lookups and element texts. These are foreign calls. Their results are inputs: `Row`, `Link`, `PageView`, `alive` and the info-line text. Starting the engine and launching a browser are foreign calls too, and no input says whether they succeed: see the next two lines.
- Pool.BrowserPool.CreateBrowser: `async_playwright().start()` and `chromium.launch` are assumed to succeed. In the source either can raise; the engine may then already be started while no browser is held.
- Pool.BrowserPool.GetPage: a failing browser creation is not modelled. In the source it propagates out of `get_page` after the old browser was already closed or dropped, and `_last_used` is then not updated.
- A sort click that raises is ignored by the source (its `try`/`except`). `Tools.SearchCnki` records the control it clicks whether or not the click succeeds.
- The asyncio lock and the async structure. Pool calls are modelled one after the other.
- Random delays, per-keystroke delays, the random user agent, and the anti-detection init script.
- The float clock. `time.time()` is an integer parameter `now`.
- Pages handed out by `get_page` and their closing. `GetPage` returns the browser handle that the page would be opened in.
- `_is_browser_alive` is the `alive` parameter. A raising `is_connected` reads as `false`.
- Exceptions from closing the browser or stopping the engine are swallowed by the source. The model treats the step as done.
- `find_best_match` takes its page from the pool like the other tools. `Matcher.FindBestMatch` starts after that step.
- Errors raised by navigation, typing or clicking in the search and detail tools. The source turns them into `isError` results; the model does not produce them. A detail extraction that raises is `ExtractionFailed`, without the message text.
- `_get_paper_detail` fields other than the info line (title, abstract, keywords, DOI, counts, fund, classification). They are element lookups with `or` fallbacks. Unlike the result rows, these reads are not isolated per field: the page's `text()` and `texts()` helpers have no `try`, so one read that raises fails the whole detail lookup. The model keeps only that outcome, as `ExtractionFailed`.
- `Text.Lower` lowers ASCII letters only. Python's `str.lower` also lowers other letters, for example the Kelvin sign U+212A becomes `k`. So a name or URL spelled with such letters resolves differently in Python.
- Vocabulary.ExpressionRoundTrip: holds only for a query and journal without a single quote, because the source does not escape quotes in the expression.
- MCP wiring: the server object, lifespan, context logging, progress reports, the JSON resources and `main`.
- The `1 <= pages <= 10` bound of `search_cnki` is enforced by the tool's parameter schema. It is a precondition of `Tools.SearchCnki`.

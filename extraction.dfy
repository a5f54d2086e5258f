/**
 * Tolerant extraction: turning one row of the results table into a paper
 * record, where every field is looked up on its own and falls back to a
 * default when its element is missing or reading it fails; and splitting a
 * detail page's "year, volume(issue): pages" line into its parts.
 *
 * The browser's answers are inputs: for each element the row is asked for,
 * whether it was found (with its text), not found, or the lookup raised.
 */
module Extraction {
  import opened Wrappers
  import opened Text

  /** The outcome of looking up one element and reading its text. */
  datatype Probe = Missing | Found(text: string) | Raises

  /** The outcome of looking up the title link `a.fz14`: its text and its
      `href` attribute (None when the link has none). */
  datatype TitleProbe = NoTitle | Title(text: string, href: Option<string>) | TitleRaises

  /** What the browser answers for the elements of one result row. The
      authors are the texts of the author links, or None when listing or
      reading them raised. */
  datatype Row = Row(
    title: TitleProbe,
    authors: Option<seq<string>>,
    source: Probe,
    date: Probe,
    cited: Probe,
    downloads: Probe)

  /** A paper record as the search returns it. `url` is None when the title
      link has no `href`, as the source then stores Python's None. */
  datatype Paper = Paper(
    title: string,
    url: Option<string>,
    authors: seq<string>,
    source: string,
    date: string,
    citedCount: string,
    downloadCount: string)

  /** One guarded field lookup: the stripped text of a found element, and
      `default` for a missing element or a failed read. */
  function FieldText(p: Probe, default: string): (r: string)
    ensures p.Found? ==> r == Strip(p.text)
    ensures !p.Found? ==> r == default
  {
    match p
    case Found(t) => Strip(t)
    case _ => default
  }

  /** `[a.strip() for a in texts if a.strip()]`: the non-blank texts,
      stripped, in their order. */
  function NonBlank(texts: seq<string>): seq<string> {
    if texts == [] then []
    else if Strip(texts[0]) != [] then [Strip(texts[0])] + NonBlank(texts[1..])
    else NonBlank(texts[1..])
  }

  /** The author list holds no blank name and never more names than there
      were links; it is every link text, stripped, when none is blank, and
      empty when all are. */
  lemma {:induction false} NonBlankMeaning(texts: seq<string>)
    ensures |NonBlank(texts)| <= |texts|
    ensures forall k :: 0 <= k < |NonBlank(texts)| ==> NonBlank(texts)[k] != []
    ensures (forall i :: 0 <= i < |texts| ==> Strip(texts[i]) != []) ==>
      |NonBlank(texts)| == |texts| && forall i :: 0 <= i < |texts| ==> NonBlank(texts)[i] == Strip(texts[i])
    ensures (forall i :: 0 <= i < |texts| ==> Strip(texts[i]) == []) ==> NonBlank(texts) == []
  {
    if texts != [] {
      NonBlankMeaning(texts[1..]);
      assert forall i :: 1 <= i < |texts| ==> texts[1..][i - 1] == texts[i];
    }
  }

  /** `_parse_paper_row`: each field is extracted on its own. The title and
      URL come from the title link (both "" when it is missing or reading
      it raises; the URL is the link's `href`, possibly None); the authors
      are the non-blank author texts ([] when listing them raises); source
      and date default to "", the citation and download counts to "0". */
  function ParsePaperRow(row: Row): (p: Paper)
    ensures row.title.Title? ==> p.title == Strip(row.title.text) && p.url == row.title.href
    ensures !row.title.Title? ==> p.title == "" && p.url == Some("")
    ensures row.authors.Some? ==> p.authors == NonBlank(row.authors.value)
    ensures row.authors.None? ==> p.authors == []
    ensures p.source == (if row.source.Found? then Strip(row.source.text) else "")
    ensures p.date == (if row.date.Found? then Strip(row.date.text) else "")
    ensures p.citedCount == (if row.cited.Found? then Strip(row.cited.text) else "0")
    ensures p.downloadCount == (if row.downloads.Found? then Strip(row.downloads.text) else "0")
  {
    var (title, url) :=
      match row.title
      case Title(t, href) => (Strip(t), href)
      case _ => ("", Some(""));
    var authors := match row.authors
      case Some(texts) => NonBlank(texts)
      case None => [];
    Paper(title, url, authors,
          FieldText(row.source, ""), FieldText(row.date, ""),
          FieldText(row.cited, "0"), FieldText(row.downloads, "0"))
  }

  /** Fault isolation: a field of the record depends on that field's own
      lookup only, so a missing or failing element can change no other
      field. */
  lemma FieldsAreIsolated(row: Row, row': Row)
    ensures row.title == row'.title ==>
      ParsePaperRow(row).title == ParsePaperRow(row').title && ParsePaperRow(row).url == ParsePaperRow(row').url
    ensures row.authors == row'.authors ==> ParsePaperRow(row).authors == ParsePaperRow(row').authors
    ensures row.source == row'.source ==> ParsePaperRow(row).source == ParsePaperRow(row').source
    ensures row.date == row'.date ==> ParsePaperRow(row).date == ParsePaperRow(row').date
    ensures row.cited == row'.cited ==> ParsePaperRow(row).citedCount == ParsePaperRow(row').citedCount
    ensures row.downloads == row'.downloads ==> ParsePaperRow(row).downloadCount == ParsePaperRow(row').downloadCount
  {
  }

  /** A record has a title only when the row's title link was found and its
      text is not blank; such records are the ones the search keeps. */
  lemma TitledOnlyFromTitleLink(row: Row)
    ensures ParsePaperRow(row).title != [] <==> row.title.Title? && Strip(row.title.text) != []
  {
  }

  /** The parts of a detail page's "year, volume(issue): pages" line. */
  datatype InfoFields = InfoFields(year: string, volume: string, issue: string, pages: string)

  const NoInfo := InfoFields("", "", "", "")

  /** The info-line split of `_get_paper_detail`, written as the source
      writes it, with Python's `split`: without a comma nothing is set;
      otherwise the year is the first comma piece, and the second comma
      piece gives the volume, issue and pages. */
  function ParseInfoLine(info: string): InfoFields {
    if ',' in info then
      var parts := Split(info, ',');
      var year := Strip(parts[0]);
      if |parts| > 1 then
        var rest := parts[1];
        var (volume, issue) := VolumeAndIssue(rest);
        InfoFields(year, volume, issue, PagesOf(rest))
      else InfoFields(year, "", "", "")
    else NoInfo
  }

  /** `rest.split('(')[0]` and `rest.split('(')[1].split(')')[0]`, both
      stripped, when `rest` holds both parentheses; ("", "") otherwise. */
  function VolumeAndIssue(rest: string): (string, string) {
    if '(' in rest && ')' in rest then
      SplitSecond(rest, '(');
      var pieces := Split(rest, '(');
      (Strip(pieces[0]), Strip(Split(pieces[1], ')')[0]))
    else ("", "")
  }

  /** `rest.split(':')[-1]`, stripped, when `rest` holds a colon; "" otherwise. */
  function PagesOf(rest: string): string {
    if ':' in rest then
      var pieces := Split(rest, ':');
      Strip(pieces[|pieces| - 1])
    else ""
  }

  /** The volume is the text before the first '(' and the issue the text
      after it up to the next '(' or ')', whichever comes first. */
  lemma VolumeAndIssueMeaning(rest: string)
    ensures '(' in rest && ')' in rest ==>
      VolumeAndIssue(rest) == (Strip(Before(rest, '(')), Strip(Before(Before(After(rest, '('), '('), ')')))
    ensures !('(' in rest && ')' in rest) ==> VolumeAndIssue(rest) == ("", "")
  {
    if '(' in rest && ')' in rest {
      SplitFirst(rest, '(');
      SplitSecond(rest, '(');
      SplitFirst(Split(rest, '(')[1], ')');
    }
  }

  /** The pages are the text after the last colon. */
  lemma PagesMeaning(rest: string)
    ensures PagesOf(rest) == if ':' in rest then Strip(AfterLast(rest, ':')) else ""
  {
    if ':' in rest {
      var pieces := Split(rest, ':');
      SplitLast(rest, ':');
      assert pieces[|pieces| - 1] == AfterLast(rest, ':');
    }
  }

  /** What the info line yields: nothing without a comma; otherwise the
      year is the stripped text before the first comma, and the piece
      between the first and the second comma gives the volume and issue
      (only when it holds both '(' and ')') and the pages (only when it
      holds a ':'). */
  lemma InfoLineMeaning(info: string)
    ensures ',' !in info ==> ParseInfoLine(info) == NoInfo
    ensures ',' in info ==>
      var f := ParseInfoLine(info);
      var seg := Before(After(info, ','), ',');
      && f.year == Strip(Before(info, ','))
      && (f.volume, f.issue) == VolumeAndIssue(seg)
      && f.pages == PagesOf(seg)
  {
    if ',' in info {
      SplitFirst(info, ',');
      SplitSecond(info, ',');
    }
  }

  /** None of the info line's delimiters occurs in `s`. */
  predicate NoDelimiter(s: string) {
    ',' !in s && '(' !in s && ')' !in s && ':' !in s
  }

  /** A line written as `year,volume(issue):pages`, whose parts hold none of
      the delimiters, is split back into exactly those parts, stripped. */
  lemma InfoLineRoundTrip(year: string, volume: string, issue: string, pages: string)
    requires ',' !in year
    requires NoDelimiter(volume) && NoDelimiter(issue) && NoDelimiter(pages)
    ensures ParseInfoLine(year + "," + volume + "(" + issue + "):" + pages)
         == InfoFields(Strip(year), Strip(volume), Strip(issue), Strip(pages))
  {
    var seg := volume + "(" + issue + "):" + pages;
    assert year + "," + volume + "(" + issue + "):" + pages == year + [','] + seg;
    assert ',' !in seg;
    InfoLineOfSegment(year, seg);
    SegmentRoundTrip(volume, issue, pages);
  }

  /** A line with a year, a comma and a comma-free piece yields the year and
      what the piece holds. */
  lemma InfoLineOfSegment(year: string, seg: string)
    requires ',' !in year && ',' !in seg
    ensures ParseInfoLine(year + [','] + seg)
         == InfoFields(Strip(year), VolumeAndIssue(seg).0, VolumeAndIssue(seg).1, PagesOf(seg))
  {
    BeforeAfterSeparator(year, ',', seg);
    InfoLineMeaning(year + [','] + seg);
  }

  /** The piece `volume(issue):pages` yields its volume, issue and pages. */
  lemma SegmentRoundTrip(volume: string, issue: string, pages: string)
    requires NoDelimiter(volume) && NoDelimiter(issue) && NoDelimiter(pages)
    ensures VolumeAndIssue(volume + "(" + issue + "):" + pages) == (Strip(volume), Strip(issue))
    ensures PagesOf(volume + "(" + issue + "):" + pages) == Strip(pages)
  {
    SegmentVolumeAndIssue(volume, issue, pages);
    SegmentPages(volume, issue, pages);
  }

  lemma SegmentVolumeAndIssue(volume: string, issue: string, pages: string)
    requires NoDelimiter(volume) && NoDelimiter(issue) && NoDelimiter(pages)
    ensures VolumeAndIssue(volume + "(" + issue + "):" + pages) == (Strip(volume), Strip(issue))
  {
    var seg := volume + "(" + issue + "):" + pages;
    var afterParen := issue + "):" + pages;
    assert seg == volume + ['('] + afterParen;
    BeforeAfterSeparator(volume, '(', afterParen);
    assert afterParen == issue + [')'] + (":" + pages);
    BeforeAfterSeparator(issue, ')', ":" + pages);
    assert '(' !in afterParen;
    VolumeAndIssueMeaning(seg);
  }

  lemma SegmentPages(volume: string, issue: string, pages: string)
    requires NoDelimiter(volume) && NoDelimiter(issue) && NoDelimiter(pages)
    ensures PagesOf(volume + "(" + issue + "):" + pages) == Strip(pages)
  {
    var seg := volume + "(" + issue + "):" + pages;
    assert seg == (volume + "(" + issue + ")") + [':'] + pages;
    AfterLastSeparator(volume + "(" + issue + ")", ':', pages);
    PagesMeaning(seg);
  }
}

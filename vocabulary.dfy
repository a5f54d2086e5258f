/**
 * The search portal's fixed vocabulary: the search fields and sort orders a
 * caller may name (in Chinese, or by an English alias), how loose input is
 * resolved to a canonical name, and how a journal-restricted search is
 * written as a professional-search expression.
 */
module Vocabulary {
  import opened Wrappers
  import opened Text

  /** Canonical search field name -> field code. */
  const SearchTypes: map<string, string> := map[
    "主题" := "SU", "篇关摘" := "TKA", "关键词" := "KY", "篇名" := "TI",
    "全文" := "FT", "作者" := "AU", "第一作者" := "FI", "通讯作者" := "RP",
    "作者单位" := "AF", "基金" := "FU", "摘要" := "AB", "参考文献" := "RF",
    "分类号" := "CLC", "文献来源" := "LY", "DOI" := "DOI"]

  /** Canonical search field name -> value of the home page's field menu entry. */
  const SearchTypeValues: map<string, string> := map[
    "主题" := "SU$%=|", "篇关摘" := "TKA$%=|", "关键词" := "KY$=|",
    "篇名" := "TI$%=|", "全文" := "FT$%=|", "作者" := "AU$=|",
    "第一作者" := "FI$=|", "通讯作者" := "RP$%=|", "作者单位" := "AF$%",
    "基金" := "FU$%|", "摘要" := "AB$%=|", "参考文献" := "RF$%=|",
    "分类号" := "CLC$=|??", "文献来源" := "LY$%=|", "DOI" := "DOI$=|?"]

  /** English alias (lower case) -> canonical search field name. */
  const SearchTypeAliases: map<string, string> := map[
    "subject" := "主题", "theme" := "主题", "keyword" := "关键词",
    "keywords" := "关键词", "title" := "篇名", "author" := "作者",
    "first_author" := "第一作者", "corresponding_author" := "通讯作者",
    "affiliation" := "作者单位", "institution" := "作者单位",
    "fund" := "基金", "abstract" := "摘要", "fulltext" := "全文",
    "reference" := "参考文献", "source" := "文献来源", "doi" := "DOI"]

  /** Canonical sort name -> id of the sort control on the results page. */
  const SortTypes: map<string, string> := map[
    "相关度" := "FFD", "发表时间" := "PT", "被引" := "CF",
    "下载" := "DFR", "综合" := "ZH"]

  /** English alias (lower case) -> canonical sort name. */
  const SortTypeAliases: map<string, string> := map[
    "relevance" := "相关度", "date" := "发表时间", "publish_time" := "发表时间",
    "time" := "发表时间", "cited" := "被引", "citation" := "被引",
    "citations" := "被引", "download" := "下载", "downloads" := "下载",
    "composite" := "综合", "general" := "综合"]

  /** Canonical search field name -> field code of the professional-search syntax. */
  const ProfessionalSearchFields: map<string, string> := map[
    "主题" := "SU", "关键词" := "KY", "篇名" := "TI", "全文" := "FT",
    "作者" := "AU", "第一作者" := "FI", "通讯作者" := "RP",
    "作者单位" := "AF", "摘要" := "AB", "DOI" := "DOI"]

  const DefaultSearchType: string := "主题"
  const DefaultSort: string := "相关度"
  /** Field code used when the resolved field has no professional-search code. */
  const DefaultFieldCode: string := "SU"

  /** The alias key a loose name is looked up under: `name.lower().strip()`. */
  function AliasKey(name: string): string {
    Strip(Lower(name))
  }

  /** A character an alias key is written with: a lower-case ASCII letter or `_`. */
  predicate IsAliasChar(c: char) {
    'a' <= c <= 'z' || c == '_'
  }

  /** A character of the CJK Unified Ideographs block, which the canonical
      Chinese names are written with. */
  predicate IsIdeograph(c: char) {
    '\U{4E00}' <= c <= '\U{9FFF}'
  }

  predicate IsAliasWord(s: string) {
    s != [] && forall i :: 0 <= i < |s| ==> IsAliasChar(s[i])
  }

  predicate IsChineseWord(s: string) {
    s != [] && forall i :: 0 <= i < |s| ==> IsIdeograph(s[i])
  }

  /** Every search alias is an alias word and names a canonical field. */
  lemma SearchAliasTable()
    ensures forall a :: a in SearchTypeAliases ==> IsAliasWord(a) && SearchTypeAliases[a] in SearchTypes
  {
    SearchAliasWords();
    assert SearchTypeAliases.Values <= SearchTypes.Keys;
  }

  lemma SearchAliasWords()
    ensures forall a :: a in SearchTypeAliases ==> IsAliasWord(a)
  {
    TopicAliasWords();
    AuthorAliasWords();
    SourceAliasWords();
  }

  lemma TopicAliasWords()
    ensures IsAliasWord("subject") && IsAliasWord("theme") && IsAliasWord("keyword")
    ensures IsAliasWord("keywords") && IsAliasWord("title") && IsAliasWord("author")
  {
  }

  lemma AuthorAliasWords()
    ensures IsAliasWord("first_author") && IsAliasWord("corresponding_author")
    ensures IsAliasWord("affiliation") && IsAliasWord("institution")
  {
  }

  lemma SourceAliasWords()
    ensures IsAliasWord("fund") && IsAliasWord("abstract") && IsAliasWord("fulltext")
    ensures IsAliasWord("reference") && IsAliasWord("source") && IsAliasWord("doi")
  {
  }

  /** Every sort alias is an alias word and names a canonical order. */
  lemma SortAliasTable()
    ensures forall a :: a in SortTypeAliases ==> IsAliasWord(a) && SortTypeAliases[a] in SortTypes
  {
    SortAliasWords();
    assert SortTypeAliases.Values <= SortTypes.Keys;
  }

  lemma SortAliasWords()
    ensures forall a :: a in SortTypeAliases ==> IsAliasWord(a)
  {
    OrderAliasWords();
    CountAliasWords();
  }

  lemma OrderAliasWords()
    ensures IsAliasWord("relevance") && IsAliasWord("date") && IsAliasWord("publish_time")
    ensures IsAliasWord("time") && IsAliasWord("composite") && IsAliasWord("general")
  {
  }

  lemma CountAliasWords()
    ensures IsAliasWord("cited") && IsAliasWord("citation") && IsAliasWord("citations")
    ensures IsAliasWord("download") && IsAliasWord("downloads")
  {
  }

  lemma SearchTypeTable()
    ensures forall k :: k in SearchTypes ==> k == "DOI" || IsChineseWord(k)
  {
  }

  lemma SortTypeTable()
    ensures forall k :: k in SortTypes ==> IsChineseWord(k)
  {
  }

  /** Alias words are lower case and contain no white space. */
  lemma AliasWordShape(a: string)
    requires IsAliasWord(a)
    ensures IsLowerCase(a) && !IsSpace(a[0]) && !IsSpace(a[|a| - 1])
  {
  }

  /** A Chinese name holds no capital letter, no alias character, and does
      not start or end with white space. */
  lemma ChineseWordShape(k: string)
    requires IsChineseWord(k)
    ensures IsLowerCase(k) && !IsAliasChar(k[0])
    ensures !IsSpace(k[0]) && !IsSpace(k[|k| - 1])
  {
    assert IsIdeograph(k[0]) && IsIdeograph(k[|k| - 1]);
  }

  /** A Chinese name is its own alias key and is no alias word. */
  lemma ChineseWordKey(k: string)
    requires IsChineseWord(k)
    ensures AliasKey(k) == k && !IsAliasWord(k)
  {
    ChineseWordShape(k);
    LowerProperties(k);
    assert Lower(k) == k;
    var none: string := [];
    StripPadded(none, k, none);
    assert none + k + none == k;
    assert AliasKey(k) == Strip(k) == k;
    assert !IsAliasChar(k[0]);
  }

  /** `resolve_search_type`: an empty name gives the default field; a name
      whose lower-cased, stripped form is an alias gives that alias's field;
      a canonical name written exactly is kept; anything else gives the
      default. The result is always a canonical field name. */
  function ResolveSearchType(name: string): (r: string)
    ensures r in SearchTypes
  {
    SearchAliasTable();
    if name == [] then DefaultSearchType
    else if AliasKey(name) in SearchTypeAliases then SearchTypeAliases[AliasKey(name)]
    else if name in SearchTypes then name
    else DefaultSearchType
  }

  /** `resolve_sort_type`, the same resolution over the sort vocabulary. */
  function ResolveSortType(name: string): (r: string)
    ensures r in SortTypes
  {
    SortAliasTable();
    if name == [] then DefaultSort
    else if AliasKey(name) in SortTypeAliases then SortTypeAliases[AliasKey(name)]
    else if name in SortTypes then name
    else DefaultSort
  }

  /** An alias written in any mix of ASCII letter cases (any `w` that
      lower-cases to it) and padded with any white space resolves to its
      field. */
  lemma SearchAliasResolves(p: string, w: string, q: string, a: string)
    requires a in SearchTypeAliases && Lower(w) == a && AllSpace(p) && AllSpace(q)
    ensures ResolveSearchType(p + w + q) == SearchTypeAliases[a]
  {
    SearchAliasTable();
    AliasWordShape(a);
    AliasKeyOfPadded(p, w, q, a);
  }

  /** An alias written in any mix of ASCII letter cases and padded with any
      white space resolves to its sort order. */
  lemma SortAliasResolves(p: string, w: string, q: string, a: string)
    requires a in SortTypeAliases && Lower(w) == a && AllSpace(p) && AllSpace(q)
    ensures ResolveSortType(p + w + q) == SortTypeAliases[a]
  {
    SortAliasTable();
    AliasWordShape(a);
    AliasKeyOfPadded(p, w, q, a);
  }

  /** The alias key of a padded spelling of an alias is the alias. */
  lemma AliasKeyOfPadded(p: string, w: string, q: string, a: string)
    requires AllSpace(p) && AllSpace(q) && Lower(w) == a
    requires a != [] && !IsSpace(a[0]) && !IsSpace(a[|a| - 1])
    ensures p + w + q != []
    ensures AliasKey(p + w + q) == a
  {
    LowerKeepsSpace(p);
    LowerKeepsSpace(q);
    LowerConcat(p + w, q);
    LowerConcat(p, w);
    assert Lower(p + w + q) == p + a + q;
    StripPadded(p, a, q);
  }

  /** In particular the all-upper-case spelling of an alias resolves like
      the alias itself. */
  lemma UpperAliasResolves(a: string)
    requires a in SearchTypeAliases
    ensures ResolveSearchType(Upper(a)) == SearchTypeAliases[a]
  {
    SearchAliasTable();
    AliasWordShape(a);
    LowerProperties(a);
    SearchAliasResolves([], Upper(a), [], a);
    assert [] + Upper(a) + [] == Upper(a);
  }

  /** Every canonical field name, written exactly, resolves to itself. */
  lemma CanonicalSearchTypeIsFixed(name: string)
    requires name in SearchTypes
    ensures ResolveSearchType(name) == name
  {
    SearchTypeTable();
    SearchAliasTable();
    if name == "DOI" {
      assert AliasKey(name) == "doi";
    } else {
      ChineseWordKey(name);
    }
  }

  /** Every canonical sort name, written exactly, resolves to itself. */
  lemma CanonicalSortIsFixed(name: string)
    requires name in SortTypes
    ensures ResolveSortType(name) == name
  {
    SortTypeTable();
    SortAliasTable();
    ChineseWordKey(name);
  }

  /** A name that is empty, or neither an alias (after lower-casing and
      stripping) nor a canonical name, gives the default field. */
  lemma UnknownSearchTypeDefaults(name: string)
    requires name == [] || (AliasKey(name) !in SearchTypeAliases && name !in SearchTypes)
    ensures ResolveSearchType(name) == DefaultSearchType
  {
  }

  /** A name that is empty, or neither an alias (after lower-casing and
      stripping) nor a canonical name, gives the default order. */
  lemma UnknownSortDefaults(name: string)
    requires name == [] || (AliasKey(name) !in SortTypeAliases && name !in SortTypes)
    ensures ResolveSortType(name) == DefaultSort
  {
  }

  /** The home page's field menu: it is opened only for a non-default field,
      the entry is looked up by the resolved name, and an entry that is
      missing or empty leaves the menu alone. `Some(value)` is the entry to
      click, `None` means the menu is not touched. */
  function FieldMenuValue(searchType: string): (r: Option<string>)
    ensures r.Some? <==> ResolveSearchType(searchType) != DefaultSearchType
    ensures r.Some? ==> r.value == SearchTypeValues[ResolveSearchType(searchType)]
    ensures r.Some? ==> SearchTypes[ResolveSearchType(searchType)] + "$" <= r.value
  {
    var resolved := ResolveSearchType(searchType);
    SearchTablesAgree();
    if resolved != DefaultSearchType && resolved in SearchTypeValues && SearchTypeValues[resolved] != []
    then Some(SearchTypeValues[resolved])
    else None
  }

  /** The field menu table and the field code table cover the same names,
      and each menu value begins with the field's code and a `$`; so the
      menu lookup after resolution never misses. */
  lemma SearchTablesAgree()
    ensures SearchTypeValues.Keys == SearchTypes.Keys
    ensures forall k :: k in SearchTypes ==> SearchTypes[k] + "$" <= SearchTypeValues[k]
  {
  }

  /** No two fields share a menu entry. */
  lemma MenuValuesDistinct()
    ensures forall a, b :: a in SearchTypeValues && b in SearchTypeValues && SearchTypeValues[a] == SearchTypeValues[b] ==> a == b
  {
  }

  /** The menu entry clicked tells which field was resolved: two names that
      open the menu at the same entry resolve to the same field. */
  lemma FieldMenuNamesField(searchType: string, other: string)
    requires FieldMenuValue(searchType).Some? && FieldMenuValue(searchType) == FieldMenuValue(other)
    ensures ResolveSearchType(searchType) == ResolveSearchType(other)
  {
    MenuValuesDistinct();
  }

  /** The sort control: clicked only for a non-default order, looked up by
      the resolved name, and left alone when the id is missing or empty. */
  function SortControlId(sort: string): (r: Option<string>)
    ensures r.Some? <==> ResolveSortType(sort) != DefaultSort
    ensures r.Some? ==> r.value == SortTypes[ResolveSortType(sort)]
  {
    var resolved := ResolveSortType(sort);
    if resolved != DefaultSort && resolved in SortTypes && SortTypes[resolved] != []
    then Some(SortTypes[resolved])
    else None
  }

  /** No two orders share a control id, and no id is empty. */
  lemma SortIdsDistinct()
    ensures forall a :: a in SortTypes ==> SortTypes[a] != []
    ensures forall a, b :: a in SortTypes && b in SortTypes && SortTypes[a] == SortTypes[b] ==> a == b
  {
  }

  /** The control clicked tells which order was resolved: two names that
      click the same control resolve to the same order. */
  lemma SortControlNamesOrder(sort: string, other: string)
    requires SortControlId(sort).Some? && SortControlId(sort) == SortControlId(other)
    ensures ResolveSortType(sort) == ResolveSortType(other)
  {
    SortIdsDistinct();
  }

  /** Field code of the professional-search syntax for a resolved field;
      fields that syntax lacks fall back to the topic code. */
  function FieldCode(resolved: string): (code: string)
    ensures resolved in ProfessionalSearchFields ==> code == ProfessionalSearchFields[resolved]
    ensures resolved !in ProfessionalSearchFields ==> code == DefaultFieldCode
    ensures '\'' !in code
  {
    if resolved in ProfessionalSearchFields then ProfessionalSearchFields[resolved] else DefaultFieldCode
  }

  /** The professional-search expression `(<code>='<query>') AND (JN='<journal>')`. */
  function Expression(code: string, query: string, journal: string): string {
    "(" + code + "='" + query + "') AND (JN='" + journal + "')"
  }

  /** The expression a journal-restricted search submits. */
  function ProfessionalExpression(searchType: string, query: string, journal: string): string {
    Expression(FieldCode(ResolveSearchType(searchType)), query, journal)
  }

  /** Reads a professional-search expression of the shape built above back
      into its field code, query and journal, by splitting on the quote. */
  function ParseExpression(e: string): Option<(string, string, string)>
  {
    var parts := Split(e, '\'');
    if |parts| == 5 && |parts[0]| >= 2 && parts[0][0] == '(' && parts[0][|parts[0]| - 1] == '='
       && parts[2] == ") AND (JN=" && parts[4] == ")"
    then Some((parts[0][1..|parts[0]| - 1], parts[1], parts[3]))
    else None
  }

  /** For a field code, query and journal without a single quote, the
      expression can be read back into exactly those three. (The source
      does not escape quotes, so a quote in the query or journal breaks
      this.) */
  lemma {:induction false} ExpressionRoundTrip(code: string, query: string, journal: string)
    requires '\'' !in code && '\'' !in query && '\'' !in journal
    ensures ParseExpression(Expression(code, query, journal)) == Some((code, query, journal))
  {
    var head: string := "(" + code + "=";
    ExpressionPieces(code, query, journal);
    assert head[1..|head| - 1] == code;
  }

  /** The quote splits the expression into the field part, the query, the
      journal keyword, the journal and the closing bracket. */
  lemma ExpressionPieces(code: string, query: string, journal: string)
    requires '\'' !in code && '\'' !in query && '\'' !in journal
    ensures Split(Expression(code, query, journal), '\'')
         == ["(" + code + "=", query, ") AND (JN=", journal, ")"]
  {
    var pieces := ["(" + code + "=", query, ") AND (JN=", journal, ")"];
    ExpressionIsJoined(code, query, journal);
    SplitJoin(pieces, '\'');
  }

  /** The expression is its five pieces joined by the quote. */
  lemma ExpressionIsJoined(code: string, query: string, journal: string)
    ensures Expression(code, query, journal)
         == Join(["(" + code + "=", query, ") AND (JN=", journal, ")"], '\'')
  {
    var q: char := '\'';
    var pieces := ["(" + code + "=", query, ") AND (JN=", journal, ")"];
    var j4 := Join(pieces[4..], q);
    assert j4 == ")";
    var j3 := Join(pieces[3..], q);
    assert pieces[3..][1..] == pieces[4..];
    assert j3 == journal + [q] + j4;
    var j2 := Join(pieces[2..], q);
    assert pieces[2..][1..] == pieces[3..];
    assert j2 == ") AND (JN=" + [q] + j3;
    var j1 := Join(pieces[1..], q);
    assert pieces[1..][1..] == pieces[2..];
    assert j1 == query + [q] + j2;
    assert Join(pieces, q) == "(" + code + "=" + [q] + j1;
  }

  /** The expression of a journal-restricted search names the resolved
      field's code, the query and the journal, and nothing else. */
  lemma ProfessionalExpressionRoundTrip(searchType: string, query: string, journal: string)
    requires '\'' !in query && '\'' !in journal
    ensures ParseExpression(ProfessionalExpression(searchType, query, journal))
         == Some((FieldCode(ResolveSearchType(searchType)), query, journal))
  {
    ExpressionRoundTrip(FieldCode(ResolveSearchType(searchType)), query, journal);
  }
}

/**
 * The fuzzy title matcher used by the best-match lookup: a candidate title
 * scores one point for every character of the query (repeats counted) that
 * occurs somewhere in it, and the first candidate with the highest score wins.
 */
module Matcher {
  import opened Wrappers
  import opened Text

  /** `sum(c in candidate for c in query)`: the number of query positions
      whose character occurs in the candidate. */
  function Score(query: string, candidate: string): (n: nat)
    ensures n <= |query|
  {
    if query == [] then 0
    else (if query[0] in candidate then 1 else 0) + Score(query[1..], candidate)
  }

  /** The score counts exactly the query positions whose character occurs in
      the candidate: it reaches the query's length when all of them do and is
      zero when none does. */
  lemma {:induction false} ScoreExtremes(query: string, candidate: string)
    ensures Score(query, candidate) == |query| <==> forall i :: 0 <= i < |query| ==> query[i] in candidate
    ensures Score(query, candidate) == 0 <==> forall i :: 0 <= i < |query| ==> query[i] !in candidate
  {
    if query != [] {
      ScoreExtremes(query[1..], candidate);
      assert forall i :: 1 <= i < |query| ==> query[i] == query[1..][i - 1];
    }
  }

  /** A candidate that contains every character another contains scores at
      least as high. */
  lemma {:induction false} ScoreMonotone(query: string, t: string, u: string)
    requires forall c :: c in t ==> c in u
    ensures Score(query, t) <= Score(query, u)
  {
    if query != [] {
      ScoreMonotone(query[1..], t, u);
    }
  }

  /** Only the set of characters in the candidate matters: order and
      repetition inside the candidate do not. */
  lemma {:induction false} ScoreDependsOnCharacterSet(query: string, t: string, u: string)
    requires forall c :: c in t <==> c in u
    ensures Score(query, t) == Score(query, u)
  {
    ScoreMonotone(query, t, u);
    ScoreMonotone(query, u, t);
  }

  /** `k` is the lowest index among the candidates of the highest score. */
  ghost predicate IsFirstBest(query: string, titles: seq<string>, k: nat) {
    && k < |titles|
    && (forall j :: 0 <= j < |titles| ==> Score(query, titles[j]) <= Score(query, titles[k]))
    && (forall j :: 0 <= j < k ==> Score(query, titles[j]) < Score(query, titles[k]))
  }

  /** At most one index is the first best one. */
  lemma FirstBestIsUnique(query: string, titles: seq<string>, k: nat, m: nat)
    requires IsFirstBest(query, titles, k) && IsFirstBest(query, titles, m)
    ensures k == m
  {
    assert Score(query, titles[k]) <= Score(query, titles[m]) <= Score(query, titles[k]);
  }

  /** `find_closest_title`: 0 for no candidates; otherwise the index of the
      first candidate with the highest score, which is 0 when every score
      is 0. */
  method FindClosestTitle(query: string, titles: seq<string>) returns (best: nat)
    ensures titles == [] ==> best == 0
    ensures titles != [] ==> IsFirstBest(query, titles, best)
  {
    var maxSimilar := 0;
    best := 0;
    var i := 0;
    while i < |titles|
      invariant 0 <= i <= |titles|
      invariant i == 0 ==> best == 0 && maxSimilar == 0
      invariant i > 0 ==> best < i && maxSimilar == Score(query, titles[best])
      invariant forall j :: 0 <= j < i ==> Score(query, titles[j]) <= maxSimilar
      invariant forall j :: 0 <= j < best ==> Score(query, titles[j]) < maxSimilar
    {
      var common := Score(query, titles[i]);
      if common > maxSimilar {
        maxSimilar := common;
        best := i;
      }
      i := i + 1;
    }
  }

  /** A result link on the page: its text and `href` (None when the link
      has no `href`), or a link whose text or attribute could not be read. */
  datatype Link = Link(text: string, href: Option<string>) | Unreadable

  /** The outcome of a best-match lookup. */
  datatype MatchResult =
    | NoMatch(query: string)
    | Match(query: string, title: string, url: string, total: nat)

  /** The titled candidates, with their URLs, that the lookup gathers from
      the result links: links are read in order, blank titles are skipped,
      a missing `href` becomes "", and the first unreadable link ends the
      reading (what was gathered before it is kept). */
  function Candidates(links: seq<Link>): seq<(string, string)>
  {
    CandidatesFrom(links, 0)
  }

  /** The candidates gathered from the links at index `i` onwards. */
  function CandidatesFrom(links: seq<Link>, i: nat): seq<(string, string)>
    requires i <= |links|
    decreases |links| - i
  {
    if i == |links| || links[i].Unreadable? then []
    else if Strip(links[i].text) != [] then [(Strip(links[i].text), links[i].href.GetOr(""))] + CandidatesFrom(links, i + 1)
    else CandidatesFrom(links, i + 1)
  }

  /** Every gathered candidate title is non-empty and stripped, and there are
      never more candidates than links. */
  lemma CandidatesAreTitled(links: seq<Link>)
    ensures |Candidates(links)| <= |links|
    ensures forall k :: 0 <= k < |Candidates(links)| ==>
      Candidates(links)[k].0 != [] && Strip(Candidates(links)[k].0) == Candidates(links)[k].0
  {
    CandidatesFromAreTitled(links, 0);
  }

  lemma {:induction false} CandidatesFromAreTitled(links: seq<Link>, i: nat)
    requires i <= |links|
    ensures |CandidatesFrom(links, i)| <= |links| - i
    ensures forall k :: 0 <= k < |CandidatesFrom(links, i)| ==>
      CandidatesFrom(links, i)[k].0 != [] && Strip(CandidatesFrom(links, i)[k].0) == CandidatesFrom(links, i)[k].0
    decreases |links| - i
  {
    if i < |links| && !links[i].Unreadable? {
      CandidatesFromAreTitled(links, i + 1);
      if Strip(links[i].text) != [] {
        StripIsStripped(links[i].text);
      }
    }
  }

  /** Stripping twice strips nothing more. */
  lemma StripIsStripped(s: string)
    ensures Strip(Strip(s)) == Strip(s)
  {
    var r := Strip(s);
    StripIsTrimmedInfix(s);
    if r != [] {
      StripPadded([], r, []);
      assert [] + r + [] == r;
    }
  }

  /** The reading loop over the result links, which gathers exactly the
      candidates above, as two parallel lists. */
  method GatherCandidates(links: seq<Link>) returns (titles: seq<string>, urls: seq<string>)
    ensures |titles| == |urls|
    ensures Zip(titles, urls) == Candidates(links)
  {
    titles, urls := [], [];
    var i := 0;
    while i < |links|
      invariant 0 <= i <= |links|
      invariant |titles| == |urls|
      invariant Candidates(links) == Zip(titles, urls) + CandidatesFrom(links, i)
    {
      if links[i].Unreadable? {
        assert Zip(titles, urls) + [] == Zip(titles, urls);
        return;
      }
      var t := Strip(links[i].text);
      if t != [] {
        var u := links[i].href.GetOr("");
        assert CandidatesFrom(links, i) == [(t, u)] + CandidatesFrom(links, i + 1);
        AppendCandidate(Candidates(links), titles, urls, t, u, CandidatesFrom(links, i + 1));
        titles, urls := titles + [t], urls + [u];
      } else {
        assert CandidatesFrom(links, i) == CandidatesFrom(links, i + 1);
      }
      i := i + 1;
    }
  }

  /** Moving one candidate from the pending rest onto the gathered lists. */
  lemma AppendCandidate(all: seq<(string, string)>, titles: seq<string>, urls: seq<string>,
                        t: string, u: string, rest: seq<(string, string)>)
    requires |titles| == |urls|
    requires all == Zip(titles, urls) + ([(t, u)] + rest)
    ensures all == Zip(titles + [t], urls + [u]) + rest
  {
    ZipSnoc(titles, urls, t, u);
    assert Zip(titles, urls) + ([(t, u)] + rest) == (Zip(titles, urls) + [(t, u)]) + rest;
  }

  /** The lookup after the search is submitted: gather the titled result
      links (`None` when the results never appeared or could not be listed)
      and pick the closest title; no titled link means no match. */
  method FindBestMatch(query: string, links: Option<seq<Link>>) returns (result: MatchResult)
    ensures var cands := if links.Some? then Candidates(links.value) else [];
      && result.query == query
      && (result.NoMatch? <==> cands == [])
      && (result.Match? ==>
            && result.total == |cands|
            && exists k: nat :: IsFirstBest(query, Titles(cands), k) && (result.title, result.url) == cands[k])
  {
    var titles: seq<string> := [];
    var urls: seq<string> := [];
    if links.Some? {
      titles, urls := GatherCandidates(links.value);
    }
    ghost var cands := if links.Some? then Candidates(links.value) else [];
    assert cands == Zip(titles, urls);
    if titles == [] {
      result := NoMatch(query);
    } else {
      var idx := FindClosestTitle(query, titles);
      assert Titles(cands) == titles;
      assert (titles[idx], urls[idx]) == cands[idx];
      result := Match(query, titles[idx], urls[idx], |titles|);
    }
  }

  /** The titles of a list of (title, url) candidates. */
  function Titles(cands: seq<(string, string)>): (ts: seq<string>)
    ensures |ts| == |cands|
    ensures forall k :: 0 <= k < |cands| ==> ts[k] == cands[k].0
  {
    seq(|cands|, k requires 0 <= k < |cands| => cands[k].0)
  }

  /** Pairs up two lists of the same length. */
  function Zip(titles: seq<string>, urls: seq<string>): (r: seq<(string, string)>)
    requires |titles| == |urls|
    ensures |r| == |titles|
    ensures forall k :: 0 <= k < |r| ==> r[k] == (titles[k], urls[k])
  {
    seq(|titles|, k requires 0 <= k < |titles| => (titles[k], urls[k]))
  }

  lemma ZipSnoc(titles: seq<string>, urls: seq<string>, t: string, u: string)
    requires |titles| == |urls|
    ensures Zip(titles + [t], urls + [u]) == Zip(titles, urls) + [(t, u)]
  {
  }
}

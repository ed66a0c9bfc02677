/** The search URL built from the form's keyword and date range
    (app.py lines 139-144). The keyword is spliced in as typed, without
    percent-encoding; only the separators are pre-encoded. */
module SearchQuery {
  import opened Results
  import opened Dates

  const SearchBase: string := "https://twitter.com/search?q="
  /** " since:" percent-encoded. */
  const SinceTag: string := "%20since%3A"
  /** " until:" percent-encoded. */
  const UntilTag: string := "%20until%3A"

  /** Which of the two `strptime` calls raised `ValueError`; the start date
      is parsed first. */
  datatype QueryError = BadStartDate | BadEndDate

  /** The search a URL asks for. */
  datatype Search = Search(keyword: string, since: Date, until: Date)

  /** The URL the scraper navigates to, or the date that failed to parse. */
  function SearchUrl(keyword: string, startDate: string, endDate: string): (r: Result<string, QueryError>)
    ensures r == Err(BadStartDate) <==> ParseLongDate(startDate).None?
    ensures r == Err(BadEndDate) <==> ParseLongDate(startDate).Some? && ParseLongDate(endDate).None?
    ensures r.Ok? ==> SearchBase + keyword <= r.value && |r.value| == |SearchBase| + |keyword| + 42
  {
    match ParseLongDate(startDate)
    case None => Err(BadStartDate)
    case Some(since) =>
      match ParseLongDate(endDate)
      case None => Err(BadEndDate)
      case Some(until) =>
        Ok(SearchBase + keyword + SinceTag + IsoDate(since) + UntilTag + IsoDate(until))
  }

  /** Reads a search URL back, taking the two fixed-width dates and their
      tags from the right so that any keyword text is kept whole. */
  function SplitSearchUrl(url: string): Option<Search> {
    var n := |url|;
    if n < |SearchBase| + 42 || !(SearchBase <= url) then None
    else
      var since := ParseIsoDate(url[n - 31..n - 21]);
      var until := ParseIsoDate(url[n - 10..]);
      if url[n - 42..n - 31] != SinceTag || url[n - 21..n - 10] != UntilTag || since.None? || until.None? then None
      else Some(Search(url[|SearchBase|..n - 42], since.value, until.value))
  }

  /** The URL records the keyword verbatim and both dates, and nothing else. */
  lemma SearchUrlRoundTrip(keyword: string, startDate: string, endDate: string)
    requires SearchUrl(keyword, startDate, endDate).Ok?
    ensures SplitSearchUrl(SearchUrl(keyword, startDate, endDate).value)
      == Some(Search(keyword, ParseLongDate(startDate).value, ParseLongDate(endDate).value))
  {
    var since := ParseLongDate(startDate).value;
    var until := ParseLongDate(endDate).value;
    var url := SearchUrl(keyword, startDate, endDate).value;
    var n := |url|;
    var b := |SearchBase| + |keyword|;
    assert url[b..b + 11] == SinceTag;
    assert url[b + 11..b + 21] == IsoDate(since);
    assert url[b + 21..b + 32] == UntilTag;
    assert url[b + 32..] == IsoDate(until);
    assert url[|SearchBase|..b] == keyword;
    IsoDateRoundTrip(since);
    IsoDateRoundTrip(until);
  }

  /** Conversely, a URL that reads back as a search is exactly the URL built
      from that keyword and the two dates. */
  lemma SplitSearchUrlSpelling(url: string)
    requires SplitSearchUrl(url).Some?
    ensures var q := SplitSearchUrl(url).value;
      url == SearchBase + q.keyword + SinceTag + IsoDate(q.since) + UntilTag + IsoDate(q.until)
  {
    var n := |url|;
    var q := SplitSearchUrl(url).value;
    assert url[..|SearchBase|] == SearchBase;
    assert url[|SearchBase|..n - 42] == q.keyword;
    assert url[n - 42..n - 31] == SinceTag && url[n - 21..n - 10] == UntilTag;
    assert url[n - 31..n - 21] == IsoDate(q.since) by { IsoDateOfParse(url[n - 31..n - 21]); }
    assert url[n - 10..] == IsoDate(q.until) by { IsoDateOfParse(url[n - 10..]); }
    SliceJoin(url, |SearchBase|, n - 42, n - 31, n - 21, n - 10,
      SearchBase, q.keyword, SinceTag, IsoDate(q.since), UntilTag, IsoDate(q.until));
  }

  /** A string is the concatenation of its consecutive slices. */
  lemma SliceJoin(s: string, a: int, b: int, c: int, d: int, e: int,
                  p1: string, p2: string, p3: string, p4: string, p5: string, p6: string)
    requires 0 <= a <= b <= c <= d <= e <= |s|
    requires s[..a] == p1 && s[a..b] == p2 && s[b..c] == p3
    requires s[c..d] == p4 && s[d..e] == p5 && s[e..] == p6
    ensures s == p1 + p2 + p3 + p4 + p5 + p6
  {
    assert s == s[..a] + s[a..b] + s[b..c] + s[c..d] + s[d..e] + s[e..];
  }
}

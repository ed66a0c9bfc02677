/** One analysis run up to the hand-off to the summariser: build the search
    URL, wait for the first results, run the collection loop
    (`scrape_tweets_with_keyword`, app.py lines 139-211), then stage the
    keyword and the numbered posts for the next stage (`run_analysis`,
    app.py lines 44-56). */
module Analysis {
  import opened Results
  import opened SearchQuery
  import opened Collection
  import opened TweetsFile

  /** How the scraper ended once its URL was built: the first wait timed out
      (lines 147-153), or the loop ran and reported. */
  datatype Scrape = NoTweetsFound(url: string) | Collected(url: string, report: Report) {
    /** The list the scraper returns. */
    function Tweets(): seq<string> {
      match this
      case NoTweetsFound(_) => []
      case Collected(_, r) => r.state.tweets
    }
  }

  /** `scrape_tweets_with_keyword`: `firstVisible` says whether the first
      20-second wait saw a post, `page` answers the loop's polls. */
  function ScrapeTweets(keyword: string, maxTweets: int, startDate: string, endDate: string,
                        firstVisible: bool, page: Page): (r: Result<Scrape, QueryError>)
    ensures SearchUrl(keyword, startDate, endDate).Err? <==> r.Err?
    ensures r.Err? ==> r.error == SearchUrl(keyword, startDate, endDate).error
    ensures r.Ok? ==> r.value.url == SearchUrl(keyword, startDate, endDate).value
    ensures r.Ok? && !firstVisible ==> r.value.Tweets() == []
    ensures r.Ok? && maxTweets <= 0 ==> r.value.Tweets() == []
    ensures r.Ok? && firstVisible ==> r.value.Tweets() == Collect(page, maxTweets).state.tweets
  {
    match SearchUrl(keyword, startDate, endDate)
    case Err(e) => Err(e)
    case Ok(url) =>
      if !firstVisible then Ok(NoTweetsFound(url))
      else Ok(Collected(url, Collect(page, maxTweets)))
  }

  const NoTweetsMessage: string := "No tweets found. Exiting..."

  /** What `run_analysis` leaves for the summariser: nothing, with a message,
      when no post was collected; otherwise the contents of `keyword.txt`
      and `tweets.txt`. */
  datatype Handoff = Abandoned(message: string) | Staged(keywordFile: string, tweetsFile: string)

  /** Lines 48-56 of `run_analysis`. */
  function StageTweets(keyword: string, tweets: seq<string>): (h: Handoff)
    ensures h.Abandoned? <==> tweets == []
    ensures h.Abandoned? ==> h.message == NoTweetsMessage
    ensures h.Staged? ==> h.keywordFile == keyword && h.tweetsFile == Render(tweets)
    ensures h.Staged? && SingleLine(tweets) ==> ParseTweetsFile(h.tweetsFile) == Some(tweets)
  {
    if |tweets| == 0 then Abandoned(NoTweetsMessage)
    else if SingleLine(tweets) then
      RenderRoundTrip(tweets);
      Staged(keyword, Render(tweets))
    else
      Staged(keyword, Render(tweets))
  }

  /** `run_analysis` up to the summariser call, after the session cookies
      have been obtained. */
  function RunAnalysis(keyword: string, tweetCount: int, startDate: string, endDate: string,
                       firstVisible: bool, page: Page): (r: Result<Handoff, QueryError>)
    ensures r.Err? <==> SearchUrl(keyword, startDate, endDate).Err?
    ensures r.Ok? && (!firstVisible || tweetCount <= 0) ==> r.value == Abandoned(NoTweetsMessage)
    ensures r.Ok? ==> (r.value.Staged? <==> firstVisible && Collect(page, tweetCount).state.tweets != [])
    ensures r.Ok? && r.value.Staged? ==>
      r.value.tweetsFile == Render(Collect(page, tweetCount).state.tweets)
  {
    match ScrapeTweets(keyword, tweetCount, startDate, endDate, firstVisible, page)
    case Err(e) => Err(e)
    case Ok(s) => Ok(StageTweets(keyword, s.Tweets()))
  }
}

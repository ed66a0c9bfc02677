/** The scroll-and-dedup collection loop of `scrape_tweets_with_keyword`
    (app.py lines 155-211), with the browser replaced by the sequence of
    answers its bounded waits and `find_elements` calls give in one run. */
module Collection {
  import opened Text

  /** An opaque reference to one rendered post element. Two handles are equal
      exactly when they refer to the same element, which is what Python's
      `div not in tweet_divs` compares. */
  datatype Handle = Handle(id: nat)

  /** What reading a listed element yields: the texts of its `span`
      descendants in document order, or a stale-element failure raised
      before the post's text was appended. */
  datatype Read = Spans(texts: seq<string>) | Stale

  /** One listed element together with what reading it will yield. */
  datatype Node = Node(handle: Handle, read: Read)

  /** The outcome of one 20-second visibility wait followed by listing the
      post elements: the wait timed out, or the elements in page order. */
  datatype Poll = Timeout | Listed(nodes: seq<Node>)

  /** The page's answers to the polls of one run, cycle by cycle. */
  type Page = seq<Poll>

  /** The answer to the poll of cycle `k`. A page whose answers have run out
      shows no post within the wait any more. */
  function PollAt(page: Page, k: nat): Poll {
    if k < |page| then page[k] else Timeout
  }

  /** The three loop variables: `tweet_divs`, `tweets` and `tweets_loaded`. */
  datatype LoopState = LoopState(seen: seq<Handle>, tweets: seq<string>, loaded: nat)

  const Start: LoopState := LoopState([], [], 0)

  /** Why the loop ended. `NotStarted`: the `while` test failed at once. */
  datatype Stop = NotStarted | PollTimeout | NoNewTweets | TargetReached

  /** What a cycle does after its batch: scroll and poll again, or leave. */
  datatype Next = Scroll | Break(reason: Stop)

  datatype CycleResult = CycleResult(state: LoopState, batch: seq<Node>, next: Next)

  /** The end of a run: the final loop variables, why it stopped, how many
      cycles ran and how many of them scrolled, and the size of the last
      cycle's batch (0 when no cycle ran; `CollectionProps.CyclesLastBatch`
      ties it to the last poll). */
  datatype Report = Report(state: LoopState, stop: Stop, cycles: nat, scrolls: nat, lastBatch: nat)

  /** The handles of some nodes, in order. */
  function Handles(ns: seq<Node>): (hs: seq<Handle>)
    ensures |hs| == |ns|
  {
    if |ns| == 0 then [] else [ns[0].handle] + Handles(ns[1..])
  }

  lemma {:induction false} HandlesAt(ns: seq<Node>, i: int)
    requires 0 <= i < |ns|
    ensures Handles(ns)[i] == ns[i].handle
    decreases i
  {
    if i > 0 {
      HandlesAt(ns[1..], i - 1);
    }
  }

  /** `[div for div in new_tweet_divs if div not in tweet_divs]`: the listed
      nodes whose handle has not been taken before, in listing order. */
  function Unseen(ns: seq<Node>, seen: seq<Handle>): (r: seq<Node>)
    ensures |r| <= |ns|
  {
    if |ns| == 0 then []
    else (if ns[0].handle in seen then [] else [ns[0]]) + Unseen(ns[1..], seen)
  }

  /** The filter keeps exactly the listed nodes whose handle is new. */
  lemma {:induction false} UnseenMembers(ns: seq<Node>, seen: seq<Handle>)
    ensures forall n :: n in Unseen(ns, seen) <==> n in ns && n.handle !in seen
    decreases |ns|
  {
    if |ns| > 0 {
      UnseenMembers(ns[1..], seen);
      assert ns == [ns[0]] + ns[1..];
    }
  }

  /** Filtering a listing piece by piece gives the pieces' results in
      listing order. */
  lemma {:induction false} UnseenAppend(a: seq<Node>, b: seq<Node>, seen: seq<Handle>)
    ensures Unseen(a + b, seen) == Unseen(a, seen) + Unseen(b, seen)
    decreases |a|
  {
    if |a| == 0 {
      assert a + b == b;
    } else {
      assert (a + b)[1..] == a[1..] + b;
      UnseenAppend(a[1..], b, seen);
    }
  }

  /** The text one taken node contributes to `tweets`: nothing if it was stale. */
  function TextOf(n: Node): seq<string> {
    match n.read
    case Stale => []
    case Spans(spans) => [PostText(spans)]
  }

  function StaleCount(ns: seq<Node>): nat {
    if |ns| == 0 then 0 else (if ns[0].read.Stale? then 1 else 0) + StaleCount(ns[1..])
  }

  /** The texts a batch of taken nodes appends to `tweets`, in batch order. */
  function Texts(ns: seq<Node>): (r: seq<string>)
    ensures |r| + StaleCount(ns) == |ns|
  {
    if |ns| == 0 then [] else TextOf(ns[0]) + Texts(ns[1..])
  }

  lemma {:induction false} TextsAppend(a: seq<Node>, b: seq<Node>)
    ensures Texts(a + b) == Texts(a) + Texts(b)
    decreases |a|
  {
    if |a| == 0 {
      assert a + b == b;
    } else {
      assert (a + b)[1..] == a[1..] + b;
      TextsAppend(a[1..], b);
    }
  }

  /** One pass of the loop body (lines 160-207) from state `st` on the answer
      `poll`; `maxTweets` is the requested count. */
  function Cycle(st: LoopState, poll: Poll, maxTweets: int): (c: CycleResult)
    ensures (c.next.Break? && c.next.reason.PollTimeout?) <==> poll.Timeout?
    ensures c.next.Break? ==> !c.next.reason.NotStarted?
    ensures c.next.Break? && !c.next.reason.TargetReached? ==> c.state == st && c.batch == []
    ensures poll.Listed? ==> c.batch == Unseen(poll.nodes, st.seen)
    ensures c.state.seen == st.seen + Handles(c.batch)
    ensures c.state.tweets == st.tweets + Texts(c.batch)
    ensures c.state.loaded == st.loaded + |c.batch|
    ensures c.next.Scroll? <==> |c.batch| > 0 && c.state.loaded < maxTweets
    ensures (c.next.Break? && c.next.reason.TargetReached?) <==> |c.batch| > 0 && c.state.loaded >= maxTweets
  {
    match poll
    case Timeout => CycleResult(st, [], Break(PollTimeout))
    case Listed(nodes) =>
      var batch := Unseen(nodes, st.seen);
      if |batch| == 0 then
        CycleResult(st, [], Break(NoNewTweets))
      else
        var loaded := st.loaded + |batch|;
        var next := if loaded >= maxTweets then Break(TargetReached) else Scroll;
        CycleResult(LoopState(st.seen + Handles(batch), st.tweets + Texts(batch), loaded), batch, next)
  }

  /** A cycle finds nothing new exactly when every element its poll listed
      had been taken before. */
  lemma CycleNothingNew(st: LoopState, poll: Poll, maxTweets: int)
    ensures var c := Cycle(st, poll, maxTweets);
      (c.next.Break? && c.next.reason.NoNewTweets?)
      <==> (poll.Listed? && forall n :: n in poll.nodes ==> n.handle in st.seen)
  {
    if poll.Listed? {
      var batch := Unseen(poll.nodes, st.seen);
      UnseenMembers(poll.nodes, st.seen);
      if |batch| > 0 {
        assert batch[0] in batch;
      }
    }
  }

  /** The loop variables agree on the count: one remembered handle per
      counted element, and at most one text per element. */
  predicate Tallied(st: LoopState) {
    |st.tweets| <= st.loaded == |st.seen|
  }

  /** The loop from cycle `k` on, entered with the `while` test true; `scrolls`
      counts the scrolls issued before cycle `k`. */
  function Cycles(page: Page, maxTweets: int, st: LoopState, k: nat, scrolls: nat): (r: Report)
    requires st.loaded < maxTweets && Tallied(st)
    ensures Tallied(r.state)
    ensures k < r.cycles && r.cycles - k <= maxTweets - st.loaded
    ensures r.scrolls - scrolls == r.cycles - k - 1
    ensures !r.stop.NotStarted?
    ensures r.stop.TargetReached? <==> r.state.loaded >= maxTweets
    ensures r.state.loaded < maxTweets + r.lastBatch
    decreases maxTweets - st.loaded
  {
    var poll := PollAt(page, k);
    var c := Cycle(st, poll, maxTweets);
    match c.next
    case Break(reason) =>
      Report(c.state, reason, k + 1, scrolls, |c.batch|)
    case Scroll =>
      Cycles(page, maxTweets, c.state, k + 1, scrolls + 1)
  }

  /** A cycle that leaves the loop ends the run in its state. */
  lemma CyclesBreak(page: Page, maxTweets: int, st: LoopState, k: nat, scrolls: nat)
    requires st.loaded < maxTweets && Tallied(st)
    requires Cycle(st, PollAt(page, k), maxTweets).next.Break?
    ensures var c := Cycle(st, PollAt(page, k), maxTweets);
      var r := Cycles(page, maxTweets, st, k, scrolls);
      && r.state == c.state && r.stop == c.next.reason
      && r.cycles == k + 1 && r.scrolls == scrolls
      && r.lastBatch == |c.batch|
  {
  }

  /** A cycle that scrolls hands the run over to the next cycle, with the
      `while` test still true. */
  lemma CyclesScroll(page: Page, maxTweets: int, st: LoopState, k: nat, scrolls: nat)
    requires st.loaded < maxTweets && Tallied(st)
    requires Cycle(st, PollAt(page, k), maxTweets).next.Scroll?
    ensures var c := Cycle(st, PollAt(page, k), maxTweets);
      && c.state.loaded < maxTweets && Tallied(c.state)
      && Cycles(page, maxTweets, st, k, scrolls) == Cycles(page, maxTweets, c.state, k + 1, scrolls + 1)
  {
  }

  /** The whole loop of one run, from empty `tweets`, `tweet_divs` and
      `tweets_loaded = 0` (lines 155-159). */
  function Collect(page: Page, maxTweets: int): (r: Report)
    ensures Tallied(r.state)
    ensures r.stop.NotStarted? <==> maxTweets <= 0
    ensures r.stop.NotStarted? ==> r.state == Start && r.cycles == 0 && r.scrolls == 0
    ensures maxTweets > 0 ==> 1 <= r.cycles <= maxTweets && r.scrolls + 1 == r.cycles
    ensures r.stop.TargetReached? <==> maxTweets > 0 && r.state.loaded >= maxTweets
    ensures !r.stop.NotStarted? ==> r.state.loaded < maxTweets + r.lastBatch
  {
    if maxTweets <= 0 then Report(Start, NotStarted, 0, 0, 0)
    else Cycles(page, maxTweets, Start, 0, 0)
  }

  /** The extraction loop over one batch (lines 187-199): each node's span
      texts are joined and stripped; a stale node is skipped. */
  method ExtractBatch(batch: seq<Node>) returns (texts: seq<string>)
    ensures |texts| + StaleCount(batch) == |batch|
    ensures texts == Texts(batch)
  {
    texts := [];
    var j := 0;
    while j < |batch|
      invariant 0 <= j <= |batch|
      invariant texts == Texts(batch[..j])
    {
      TextsAppend(batch[..j], [batch[j]]);
      assert batch[..j + 1] == batch[..j] + [batch[j]];
      match batch[j].read {
        case Stale =>
        case Spans(spans) =>
          var text := AssemblePost(spans);
          texts := texts + [text];
      }
      j := j + 1;
    }
    assert batch[..j] == batch;
  }

  /** One pass of the loop body as the source writes it (lines 160-204):
      give up on a timed-out wait, keep the unseen handles, count them,
      remember them, extract each one's text, then decide whether to stop. */
  method PollCycle(poll: Poll, maxTweets: int, tweetDivs: seq<Handle>, tweets: seq<string>, loaded: nat)
    returns (tweetDivs': seq<Handle>, tweets': seq<string>, loaded': nat, next: Next)
    ensures var c := Cycle(LoopState(tweetDivs, tweets, loaded), poll, maxTweets);
      && tweetDivs' == c.state.seen && tweets' == c.state.tweets && loaded' == c.state.loaded
      && next == c.next
  {
    tweetDivs', tweets', loaded' := tweetDivs, tweets, loaded;
    if poll.Timeout? {
      return tweetDivs', tweets', loaded', Break(PollTimeout);
    }
    var unique := Unseen(poll.nodes, tweetDivs);
    if |unique| > 0 {
      loaded' := loaded + |unique|;
    } else {
      return tweetDivs', tweets', loaded', Break(NoNewTweets);
    }
    tweetDivs' := tweetDivs + Handles(unique);
    var texts := ExtractBatch(unique);
    tweets' := tweets + texts;
    if loaded' >= maxTweets {
      return tweetDivs', tweets', loaded', Break(TargetReached);
    }
    next := Scroll;
  }

  /** The loop as the source writes it (lines 155-211): cycles until one of
      them breaks, scrolling in between. */
  method CollectTweets(page: Page, maxTweets: int) returns (tweets: seq<string>, tweetDivs: seq<Handle>, loaded: nat)
    ensures var st := Collect(page, maxTweets).state;
      tweetDivs == st.seen && tweets == st.tweets && loaded == st.loaded
    ensures |tweets| <= loaded == |tweetDivs|
    ensures maxTweets <= 0 ==> tweets == [] && loaded == 0
  {
    tweets, tweetDivs, loaded := [], [], 0;
    if maxTweets <= 0 {
      // the `while` test fails at once
      return;
    }
    var cycle: nat := 0;
    ghost var final := Collect(page, maxTweets).state;
    while loaded < maxTweets
      invariant loaded < maxTweets && Tallied(LoopState(tweetDivs, tweets, loaded))
      invariant final == Cycles(page, maxTweets, LoopState(tweetDivs, tweets, loaded), cycle, cycle).state
      decreases maxTweets - loaded
    {
      ghost var st := LoopState(tweetDivs, tweets, loaded);
      var next;
      tweetDivs, tweets, loaded, next := PollCycle(PollAt(page, cycle), maxTweets, tweetDivs, tweets, loaded);
      if next.Break? {
        CyclesBreak(page, maxTweets, st, cycle, cycle);
        break;
      }
      CyclesScroll(page, maxTweets, st, cycle, cycle);
      // scroll to the bottom of the page to load more posts
      cycle := cycle + 1;
    }
  }
}

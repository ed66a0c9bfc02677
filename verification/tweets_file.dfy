/** The `tweets.txt` staging file written by `run_analysis` (app.py lines
    54-56): one line `Tweet {i}: {tweet}` per collected post, numbered from 1
    in collection order. */
module TweetsFile {
  import opened Results
  import opened Digits

  const LinePrefix: string := "Tweet "
  const NumberSuffix: string := ": "

  /** `f"Tweet {i}: {tweet}\n"`. */
  function Line(i: nat, tweet: string): string {
    LinePrefix + Decimal(i) + NumberSuffix + tweet + "\n"
  }

  /** The lines for `tweets`, the first one numbered `i`. */
  function LinesFrom(i: nat, tweets: seq<string>): string
    decreases |tweets|
  {
    if |tweets| == 0 then "" else Line(i, tweets[0]) + LinesFrom(i + 1, tweets[1..])
  }

  /** The whole content of `tweets.txt`. */
  function Render(tweets: seq<string>): string {
    LinesFrom(1, tweets)
  }

  /** Writing one more post adds exactly its line, numbered one past the
      posts before it, at the end of the file. */
  lemma {:induction false} LinesFromAppend(i: nat, tweets: seq<string>, t: string)
    ensures LinesFrom(i, tweets + [t]) == LinesFrom(i, tweets) + Line(i + |tweets|, t)
    decreases |tweets|
  {
    if |tweets| == 0 {
      assert tweets + [t] == [t];
      assert [t][1..] == [];
    } else {
      assert (tweets + [t])[1..] == tweets[1..] + [t];
      LinesFromAppend(i + 1, tweets[1..], t);
    }
  }

  /** The write loop, `for i, tweet in enumerate(tweets, start=1)`. */
  method WriteTweets(tweets: seq<string>) returns (content: string)
    ensures content == Render(tweets)
  {
    content := "";
    var k := 0;
    while k < |tweets|
      invariant 0 <= k <= |tweets|
      invariant content == Render(tweets[..k])
    {
      LinesFromAppend(1, tweets[..k], tweets[k]);
      assert tweets[..k + 1] == tweets[..k] + [tweets[k]];
      content := content + Line(k + 1, tweets[k]);
      k := k + 1;
    }
    assert tweets[..k] == tweets;
  }

  /** The position of the first line break in `s`, if any. */
  function NewlineAt(s: string): (r: Option<nat>)
    ensures r.Some? ==> r.value < |s| && s[r.value] == '\n' && '\n' !in s[..r.value]
    ensures r.None? ==> '\n' !in s
  {
    if |s| == 0 then None
    else if s[0] == '\n' then Some(0)
    else match NewlineAt(s[1..])
      case None => None
      case Some(k) =>
        assert s[..k + 1] == [s[0]] + s[1..][..k];
        Some(k + 1)
  }

  /** Reads a staging file back, expecting the lines numbered from `i`. */
  function ParseFrom(i: nat, s: string): Option<seq<string>>
    decreases |s|
  {
    if |s| == 0 then Some([])
    else
      var head := LinePrefix + Decimal(i) + NumberSuffix;
      if !(head <= s) then None
      else
        var rest := s[|head|..];
        match NewlineAt(rest)
        case None => None
        case Some(k) =>
          match ParseFrom(i + 1, rest[k + 1..])
          case None => None
          case Some(more) => Some([rest[..k]] + more)
  }

  function ParseTweetsFile(s: string): Option<seq<string>> {
    ParseFrom(1, s)
  }

  /** No post holds a line break. */
  predicate SingleLine(tweets: seq<string>) {
    forall k :: 0 <= k < |tweets| ==> '\n' !in tweets[k]
  }

  lemma NewlineAfter(t: string, rest: string)
    requires '\n' !in t
    ensures NewlineAt(t + "\n" + rest) == Some(|t|)
  {
    var s := t + "\n" + rest;
    assert s[|t|] == '\n' && s[..|t|] == t;
  }

  /** When no post holds a line break the file determines the list. */
  lemma {:induction false} ParseLinesFrom(i: nat, tweets: seq<string>)
    requires SingleLine(tweets)
    ensures ParseFrom(i, LinesFrom(i, tweets)) == Some(tweets)
    decreases |tweets|
  {
    if |tweets| > 0 {
      var t := tweets[0];
      var head := LinePrefix + Decimal(i) + NumberSuffix;
      var more := LinesFrom(i + 1, tweets[1..]);
      var s := LinesFrom(i, tweets);
      assert s == head + (t + "\n" + more);
      assert head <= s;
      assert s[|head|..] == t + "\n" + more;
      NewlineAfter(t, more);
      assert (t + "\n" + more)[|t| + 1..] == more;
      assert (t + "\n" + more)[..|t|] == t;
      ParseLinesFrom(i + 1, tweets[1..]);
      assert [t] + tweets[1..] == tweets;
    }
  }

  /** The staging file reads back as the collected list, provided no post
      holds a line break. */
  lemma RenderRoundTrip(tweets: seq<string>)
    requires SingleLine(tweets)
    ensures ParseTweetsFile(Render(tweets)) == Some(tweets)
  {
    ParseLinesFrom(1, tweets);
  }

  /** A post holding a line break can pass for several posts: the file of
      one such post is byte-for-byte the file of two ordinary ones. */
  lemma RenderAmbiguous()
    ensures Render(["a\nTweet 2: b"]) == Render(["a", "b"])
  {
    assert Decimal(1) == "1" && Decimal(2) == "2";
    assert ["a", "b"][1..] == ["b"];
    assert ["b"][1..] == [];
    assert ["a\nTweet 2: b"][1..] == [];
  }
}

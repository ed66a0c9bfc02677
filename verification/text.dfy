/** Text assembly for one post: the span texts joined in document order and
    then stripped of surrounding whitespace the way Python's `str.strip()`
    does it (app.py lines 188-193). */
module Text {

  /** The characters Python's `str.isspace()` accepts; `str.strip()` with no
      argument removes exactly these from both ends. */
  predicate IsSpace(c: char) {
    || c == ' '
    || ('\t' <= c <= '\r')
    || ('\U{1c}' <= c <= '\U{1f}')
    || c == '\U{85}' || c == '\U{a0}' || c == '\U{1680}'
    || ('\U{2000}' <= c <= '\U{200a}')
    || c == '\U{2028}' || c == '\U{2029}' || c == '\U{202f}'
    || c == '\U{205f}' || c == '\U{3000}'
  }

  predicate AllSpace(s: string) {
    forall i :: 0 <= i < |s| ==> IsSpace(s[i])
  }

  /** Neither end of `s` is whitespace. */
  predicate Trimmed(s: string) {
    |s| == 0 || (!IsSpace(s[0]) && !IsSpace(s[|s| - 1]))
  }

  /** `r` is `s` with some all-whitespace prefix and suffix cut off. */
  ghost predicate PaddedBy(s: string, r: string) {
    exists i, j :: 0 <= i <= j <= |s| && r == s[i..j] && AllSpace(s[..i]) && AllSpace(s[j..])
  }

  /** `s` without its leading whitespace. */
  function StripLeft(s: string): string {
    if |s| > 0 && IsSpace(s[0]) then StripLeft(s[1..]) else s
  }

  /** Left stripping removes an all-whitespace prefix and stops at the first
      character that is not whitespace. */
  lemma {:induction false} StripLeftCuts(s: string)
    ensures |StripLeft(s)| <= |s| && StripLeft(s) == s[|s| - |StripLeft(s)|..]
    ensures AllSpace(s[..|s| - |StripLeft(s)|])
    ensures |StripLeft(s)| > 0 ==> !IsSpace(StripLeft(s)[0])
    decreases |s|
  {
    if |s| > 0 && IsSpace(s[0]) {
      StripLeftCuts(s[1..]);
      var n := |s| - |StripLeft(s)|;
      assert forall k :: 1 <= k < n ==> s[..n][k] == s[1..][..n - 1][k - 1];
    }
  }

  /** `s` without its trailing whitespace. */
  function StripRight(s: string): string {
    if |s| > 0 && IsSpace(s[|s| - 1]) then StripRight(s[..|s| - 1]) else s
  }

  /** Right stripping removes an all-whitespace suffix and stops at the last
      character that is not whitespace. */
  lemma {:induction false} StripRightCuts(s: string)
    ensures |StripRight(s)| <= |s| && StripRight(s) == s[..|StripRight(s)|]
    ensures AllSpace(s[|StripRight(s)|..])
    ensures |StripRight(s)| > 0 ==> !IsSpace(StripRight(s)[|StripRight(s)| - 1])
    decreases |s|
  {
    if |s| > 0 && IsSpace(s[|s| - 1]) {
      var s' := s[..|s| - 1];
      StripRightCuts(s');
      var n := |StripRight(s)|;
      assert forall k :: 0 <= k < |s| - 1 - n ==> s[n..][k] == s'[n..][k];
    }
  }

  /** Python's `s.strip()`. */
  function Strip(s: string): (r: string)
    ensures Trimmed(r)
  {
    StripLeftCuts(s);
    StripRightCuts(StripLeft(s));
    StripRight(StripLeft(s))
  }

  /** What `strip()` removes is whitespace at the two ends and nothing else. */
  lemma StripPadded(s: string)
    ensures PaddedBy(s, Strip(s))
  {
    var l := StripLeft(s);
    var r := StripRight(l);
    StripLeftCuts(s);
    StripRightCuts(l);
    var i := |s| - |l|;
    assert r == s[i..i + |r|];
    assert s[i + |r|..] == l[|r|..];
    assert AllSpace(s[..i]) && AllSpace(s[i + |r|..]);
  }

  /** Left stripping stops at the first character that is not whitespace. */
  lemma {:induction false} StripLeftAt(s: string, i: int)
    requires 0 <= i <= |s| && AllSpace(s[..i])
    requires i == |s| || !IsSpace(s[i])
    ensures StripLeft(s) == s[i..]
    decreases i
  {
    if i > 0 {
      assert s[..i][0] == s[0];
      assert s[1..][..i - 1] == s[1..i];
      assert forall k :: 0 <= k < i - 1 ==> s[1..i][k] == s[..i][k + 1];
      StripLeftAt(s[1..], i - 1);
      assert s[1..][i - 1..] == s[i..];
    }
  }

  /** Right stripping stops at the last character that is not whitespace. */
  lemma {:induction false} StripRightAt(s: string, j: int)
    requires 0 <= j <= |s| && AllSpace(s[j..])
    requires j == 0 || !IsSpace(s[j - 1])
    ensures StripRight(s) == s[..j]
    decreases |s| - j
  {
    if j < |s| {
      assert s[j..][|s| - 1 - j] == s[|s| - 1];
      var s' := s[..|s| - 1];
      assert forall k :: 0 <= k < |s'| - j ==> s'[j..][k] == s[j..][k];
      StripRightAt(s', j);
      assert s'[..j] == s[..j];
    }
  }

  /** Stripping is determined by its two defining properties: any slice of `s`
      that is cut out by whitespace-only padding and has no whitespace at
      either end is what `strip()` returns. */
  lemma {:induction false} StripUnique(s: string, i: int, j: int)
    requires 0 <= i <= j <= |s|
    requires AllSpace(s[..i]) && AllSpace(s[j..])
    requires Trimmed(s[i..j])
    ensures Strip(s) == s[i..j]
  {
    if i == j {
      assert AllSpace(s) by {
        forall k | 0 <= k < |s| ensures IsSpace(s[k]) {
          if k < i { assert s[..i][k] == s[k]; } else { assert s[j..][k - j] == s[k]; }
        }
      }
      StripBlank(s);
    } else {
      assert s[i..j][0] == s[i] && s[i..j][j - i - 1] == s[j - 1];
      assert StripLeft(s) == s[i..] by {
        StripLeftAt(s, i);
      }
      var l := s[i..];
      assert StripRight(l) == l[..j - i] by {
        assert l[j - i..] == s[j..];
        assert l[j - i - 1] == s[j - 1];
        StripRightAt(l, j - i);
      }
      assert l[..j - i] == s[i..j];
    }
  }

  /** A string of whitespace only strips to the empty string. */
  lemma StripBlank(s: string)
    requires AllSpace(s)
    ensures Strip(s) == []
  {
    assert s[..|s|] == s;
    StripLeftAt(s, |s|);
  }

  /** Stripping twice is stripping once. */
  lemma StripIdempotent(s: string)
    ensures Strip(Strip(s)) == Strip(s)
  {
    var r := Strip(s);
    assert r[..0] == [] && r[|r|..] == [];
    assert r[0..|r|] == r;
    StripUnique(r, 0, |r|);
  }

  /** The span texts joined in order, as `tweet_text += span.text` builds it. */
  function Concat(spans: seq<string>): string {
    if |spans| == 0 then "" else Concat(spans[..|spans| - 1]) + spans[|spans| - 1]
  }

  lemma {:induction false} ConcatAppend(a: seq<string>, b: seq<string>)
    ensures Concat(a + b) == Concat(a) + Concat(b)
    decreases |b|
  {
    if |b| == 0 {
      assert a + b == a;
    } else {
      var b' := b[..|b| - 1];
      assert (a + b)[..|a + b| - 1] == a + b';
      ConcatAppend(a, b');
    }
  }

  /** Every span's text appears in the joined text, at the offset given by
      the lengths of the spans before it. */
  lemma {:induction false} ConcatContainsSpans(spans: seq<string>, k: int)
    requires 0 <= k < |spans|
    ensures |Concat(spans[..k])| + |spans[k]| <= |Concat(spans)|
    ensures Concat(spans)[|Concat(spans[..k])|..|Concat(spans[..k])| + |spans[k]|] == spans[k]
  {
    assert spans == spans[..k] + [spans[k]] + spans[k + 1..];
    ConcatAppend(spans[..k] + [spans[k]], spans[k + 1..]);
    ConcatAppend(spans[..k], [spans[k]]);
    assert Concat([spans[k]]) == spans[k] by {
      assert [spans[k]][..0] == [];
    }
  }

  /** The text of one post as the extraction loop builds it. */
  function PostText(spans: seq<string>): string {
    Strip(Concat(spans))
  }

  /** The per-post extraction loop: append each span's text, then strip. */
  method AssemblePost(spans: seq<string>) returns (text: string)
    ensures Trimmed(text)
    ensures PaddedBy(Concat(spans), text)
    ensures text == PostText(spans)
  {
    StripPadded(Concat(spans));
    var acc := "";
    var k := 0;
    while k < |spans|
      invariant 0 <= k <= |spans|
      invariant acc == Concat(spans[..k])
    {
      assert spans[..k + 1][..k] == spans[..k];
      acc := acc + spans[k];
      k := k + 1;
    }
    assert spans[..k] == spans;
    text := Strip(acc);
  }
}

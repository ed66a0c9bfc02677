/** Whole-run properties of the collection loop: what ends a run, how far it
    can overshoot, that no element is taken twice, that every listed element
    is taken, and two concrete runs. */
module CollectionProps {
  import opened Collection

  /** No handle occurs twice. */
  predicate NoDup(hs: seq<Handle>) {
    forall i, j :: 0 <= i < j < |hs| ==> hs[i] != hs[j]
  }

  /** A listing names each element once, as `find_elements` does. */
  predicate DistinctListing(p: Poll) {
    p.Listed? ==> NoDup(Handles(p.nodes))
  }

  /** Every poll of the run lists each element once. */
  predicate DistinctPolls(page: Page) {
    forall j :: 0 <= j < |page| ==> DistinctListing(page[j])
  }

  function PollHandles(p: Poll): set<Handle> {
    if p.Listed? then set n | n in p.nodes :: n.handle else {}
  }

  /** Every handle listed by the first `n` polls of a run. */
  function ListedBefore(page: Page, n: nat): set<Handle> {
    if n == 0 then {} else ListedBefore(page, n - 1) + PollHandles(PollAt(page, n - 1))
  }

  function SetOf(hs: seq<Handle>): set<Handle> {
    set h | h in hs
  }

  // ---- what ends a run --------------------------------------------------

  /** The report agrees with the last poll the loop made: that poll timed
      out exactly when the run stopped on a timeout, everything it listed
      had been taken when the run stopped for lack of new elements, and the
      last batch is no longer than its listing. */
  predicate EndsOnLastPoll(page: Page, r: Report) {
    && r.cycles > 0
    && var last := PollAt(page, r.cycles - 1);
    && (r.stop.PollTimeout? <==> last.Timeout?)
    && (r.stop.NoNewTweets? ==> last.Listed? && forall n :: n in last.nodes ==> n.handle in r.state.seen)
    && (last.Listed? ==> r.lastBatch <= |last.nodes|)
  }

  lemma {:induction false} CyclesEndOnLastPoll(page: Page, maxTweets: int, st: LoopState, k: nat, scrolls: nat)
    requires st.loaded < maxTweets && Tallied(st)
    ensures EndsOnLastPoll(page, Cycles(page, maxTweets, st, k, scrolls))
    decreases maxTweets - st.loaded
  {
    var c := Cycle(st, PollAt(page, k), maxTweets);
    if c.next.Scroll? {
      CyclesScroll(page, maxTweets, st, k, scrolls);
      CyclesEndOnLastPoll(page, maxTweets, c.state, k + 1, scrolls + 1);
    } else {
      CyclesBreak(page, maxTweets, st, k, scrolls);
      CycleBreak(st, PollAt(page, k), maxTweets);
    }
  }

  /** What a cycle that leaves the loop says about its poll. */
  lemma CycleBreak(st: LoopState, poll: Poll, maxTweets: int)
    requires Cycle(st, poll, maxTweets).next.Break?
    ensures var c := Cycle(st, poll, maxTweets);
      && (c.next.reason.NoNewTweets? ==> poll.Listed? && forall n :: n in poll.nodes ==> n.handle in c.state.seen)
      && (poll.Listed? ==> |c.batch| <= |poll.nodes|)
  {
    CycleNothingNew(st, poll, maxTweets);
  }

  /** A run ends for one of the three reasons of the source, each read off the
      last poll: its wait timed out, it listed no element that had not been
      taken, or the count reached the target; in the first two cases the
      target was not reached, and the count overshoots the target by less
      than the number of elements the last poll listed. */
  lemma CollectStops(page: Page, maxTweets: int)
    requires maxTweets > 0
    ensures var r := Collect(page, maxTweets);
      r.stop.PollTimeout? <==> PollAt(page, r.cycles - 1).Timeout?
    ensures var r := Collect(page, maxTweets);
      var last := PollAt(page, r.cycles - 1);
      r.stop.NoNewTweets? ==> last.Listed? && forall n :: n in last.nodes ==> n.handle in r.state.seen
    ensures var r := Collect(page, maxTweets);
      r.stop.TargetReached? <==> r.state.loaded >= maxTweets
    ensures var r := Collect(page, maxTweets);
      var last := PollAt(page, r.cycles - 1);
      last.Listed? ==> r.state.loaded < maxTweets + |last.nodes|
    ensures var r := Collect(page, maxTweets);
      PollAt(page, r.cycles - 1).Timeout? ==> r.state.loaded < maxTweets
  {
    CyclesEndOnLastPoll(page, maxTweets, Start, 0, 0);
  }

  /** The last batch the report counts is what the last poll listed that had
      not been taken before it: the remembered handles end with that batch's
      handles, the rest of them are those taken before the last cycle, a
      timed-out last poll took nothing, and the count was below the target
      before the last batch was added. */
  predicate LastBatchPinned(page: Page, maxTweets: int, r: Report) {
    && r.cycles > 0
    && r.lastBatch <= |r.state.seen|
    && r.state.loaded - r.lastBatch < maxTweets
    && var cut := |r.state.seen| - r.lastBatch;
    && var last := PollAt(page, r.cycles - 1);
    && (last.Timeout? ==> r.lastBatch == 0)
    && (last.Listed? ==> Handles(Unseen(last.nodes, r.state.seen[..cut])) == r.state.seen[cut..])
  }

  lemma {:induction false} CyclesLastBatch(page: Page, maxTweets: int, st: LoopState, k: nat, scrolls: nat)
    requires st.loaded < maxTweets && Tallied(st)
    ensures LastBatchPinned(page, maxTweets, Cycles(page, maxTweets, st, k, scrolls))
    decreases maxTweets - st.loaded
  {
    var c := Cycle(st, PollAt(page, k), maxTweets);
    if c.next.Scroll? {
      CyclesScroll(page, maxTweets, st, k, scrolls);
      CyclesLastBatch(page, maxTweets, c.state, k + 1, scrolls + 1);
    } else {
      CyclesBreak(page, maxTweets, st, k, scrolls);
      BreakLastBatch(st, PollAt(page, k), maxTweets);
    }
  }

  /** The state a leaving cycle ends in splits into the state before it and
      its batch. */
  lemma BreakLastBatch(st: LoopState, poll: Poll, maxTweets: int)
    requires st.loaded < maxTweets
    requires Cycle(st, poll, maxTweets).next.Break?
    ensures var c := Cycle(st, poll, maxTweets);
      var cut := |c.state.seen| - |c.batch|;
      && |c.batch| <= |c.state.seen|
      && c.state.loaded - |c.batch| < maxTweets
      && c.state.seen[..cut] == st.seen
      && c.state.seen[cut..] == Handles(c.batch)
      && (poll.Timeout? ==> c.batch == [])
  {
    var c := Cycle(st, poll, maxTweets);
    assert (st.seen + Handles(c.batch))[..|st.seen|] == st.seen;
    assert (st.seen + Handles(c.batch))[|st.seen|..] == Handles(c.batch);
  }

  /** How far a run overshoots its target: by less than the size of its last
      batch, the elements its last poll listed that had not been taken
      before that poll; a timed-out last poll adds none. */
  lemma CollectOvershoot(page: Page, maxTweets: int)
    requires maxTweets > 0
    ensures var r := Collect(page, maxTweets);
      LastBatchPinned(page, maxTweets, r)
    ensures var r := Collect(page, maxTweets);
      var last := PollAt(page, r.cycles - 1);
      last.Listed? ==>
        r.state.loaded < maxTweets + |Unseen(last.nodes, r.state.seen[..|r.state.seen| - r.lastBatch])|
  {
    var r := Collect(page, maxTweets);
    CyclesLastBatch(page, maxTweets, Start, 0, 0);
    var last := PollAt(page, r.cycles - 1);
    if last.Listed? {
      var cut := |r.state.seen| - r.lastBatch;
      assert |Handles(Unseen(last.nodes, r.state.seen[..cut]))| == |r.state.seen[cut..]|;
    }
  }

  // ---- no element is taken twice -----------------------------------------

  /** Every handle of a filtered batch is new, and no two are equal when the
      listing had no two equal. */
  lemma {:induction false} UnseenNoDup(ns: seq<Node>, seen: seq<Handle>)
    requires NoDup(Handles(ns))
    ensures NoDup(Handles(Unseen(ns, seen)))
    decreases |ns|
  {
    if |ns| > 0 {
      var tail := ns[1..];
      assert Handles(tail) == Handles(ns)[1..];
      UnseenNoDup(tail, seen);
      var u := Unseen(tail, seen);
      var r := Unseen(ns, seen);
      if ns[0].handle !in seen {
        assert r == [ns[0]] + u;
        assert r[1..] == u;
        UnseenMembers(tail, seen);
        forall i, j | 0 <= i < j < |r| ensures Handles(r)[i] != Handles(r)[j] {
          if i == 0 {
            HandlesAt(u, j - 1);
            assert u[j - 1] in u;
            var m :| 0 <= m < |tail| && tail[m] == u[j - 1];
            HandlesAt(tail, m);
            assert Handles(ns)[m + 1] == u[j - 1].handle;
          } else {
            assert Handles(u)[i - 1] != Handles(u)[j - 1];
          }
        }
      } else {
        assert r == u;
      }
    }
  }

  /** A cycle keeps the taken handles distinct when its listing is. */
  lemma CycleNoDup(st: LoopState, poll: Poll, maxTweets: int)
    requires NoDup(st.seen) && DistinctListing(poll)
    ensures NoDup(Cycle(st, poll, maxTweets).state.seen)
  {
    var c := Cycle(st, poll, maxTweets);
    if poll.Listed? {
      UnseenNoDup(poll.nodes, st.seen);
      UnseenMembers(poll.nodes, st.seen);
      var hs := Handles(c.batch);
      var seen := st.seen + hs;
      forall i, j | 0 <= i < j < |seen| ensures seen[i] != seen[j] {
        if i < |st.seen| && j >= |st.seen| {
          HandlesAt(c.batch, j - |st.seen|);
          assert c.batch[j - |st.seen|] in c.batch;
          assert seen[i] in st.seen;
        }
      }
    }
  }

  lemma {:induction false} CyclesNoDup(page: Page, maxTweets: int, st: LoopState, k: nat, scrolls: nat)
    requires st.loaded < maxTweets && Tallied(st)
    requires DistinctPolls(page)
    requires NoDup(st.seen)
    ensures NoDup(Cycles(page, maxTweets, st, k, scrolls).state.seen)
    decreases maxTweets - st.loaded
  {
    var c := Cycle(st, PollAt(page, k), maxTweets);
    assert NoDup(c.state.seen) by {
      CycleNoDup(st, PollAt(page, k), maxTweets);
    }
    if c.next.Scroll? {
      CyclesScroll(page, maxTweets, st, k, scrolls);
      CyclesNoDup(page, maxTweets, c.state, k + 1, scrolls + 1);
    } else {
      CyclesBreak(page, maxTweets, st, k, scrolls);
    }
  }

  /** Dedup: when every listing names each element once, no element is ever
      taken twice in a run, so `tweets_loaded` counts distinct elements and,
      with `CollectTaken`, each collected text comes from a different
      element. */
  lemma CollectNoDup(page: Page, maxTweets: int)
    requires DistinctPolls(page)
    ensures NoDup(Collect(page, maxTweets).state.seen)
  {
    if maxTweets > 0 {
      CyclesNoDup(page, maxTweets, Start, 0, 0);
    }
  }

  // ---- where the texts come from ----------------------------------------

  /** The elements a run takes from cycle `k` on: each cycle's batch of
      unseen elements, batch after batch in the order the cycles ran. */
  ghost function Taken(page: Page, maxTweets: int, st: LoopState, k: nat): seq<Node>
    requires st.loaded < maxTweets && Tallied(st)
    decreases maxTweets - st.loaded
  {
    var c := Cycle(st, PollAt(page, k), maxTweets);
    if c.next.Scroll? then c.batch + Taken(page, maxTweets, c.state, k + 1) else c.batch
  }

  /** The elements a whole run takes. */
  ghost function RunTaken(page: Page, maxTweets: int): seq<Node> {
    if maxTweets <= 0 then [] else Taken(page, maxTweets, Start, 0)
  }

  function PollNodes(p: Poll): set<Node> {
    if p.Listed? then set n | n in p.nodes else {}
  }

  /** Every element listed by the first `n` polls of a run. */
  function ListedNodes(page: Page, n: nat): set<Node> {
    if n == 0 then {} else ListedNodes(page, n - 1) + PollNodes(PollAt(page, n - 1))
  }

  /** The handles listed by the first `n` polls are the handles of the
      elements they listed. */
  lemma {:induction false} ListedBeforeNodes(page: Page, n: nat)
    ensures ListedBefore(page, n) == set x | x in ListedNodes(page, n) :: x.handle
    decreases n
  {
    if n > 0 {
      ListedBeforeNodes(page, n - 1);
      var p := PollAt(page, n - 1);
      assert PollHandles(p) == set x | x in PollNodes(p) :: x.handle;
    }
  }

  lemma {:induction false} ListedNodesGrow(page: Page, a: nat, b: nat)
    requires a <= b
    ensures ListedNodes(page, a) <= ListedNodes(page, b)
    decreases b - a
  {
    if a < b {
      ListedNodesGrow(page, a, b - 1);
    }
  }

  lemma {:induction false} HandlesAppend(a: seq<Node>, b: seq<Node>)
    ensures Handles(a + b) == Handles(a) + Handles(b)
    decreases |a|
  {
    if |a| == 0 {
      assert a + b == b;
    } else {
      assert (a + b)[1..] == a[1..] + b;
      HandlesAppend(a[1..], b);
    }
  }

  /** The run that ends in `r`, entered in state `before`, took the elements
      `t`: its handles are theirs appended in order, its texts are theirs
      appended in order with stale elements contributing none, and each of
      them was listed by one of the run's polls. */
  ghost predicate TookFrom(page: Page, before: LoopState, r: Report, t: seq<Node>) {
    && r.state.seen == before.seen + Handles(t)
    && r.state.tweets == before.tweets + Texts(t)
    && forall n :: n in t ==> n in ListedNodes(page, r.cycles)
  }

  /** Appending `x` and then `y` appends `x + y`. */
  lemma AppendInTurn<T>(before: seq<T>, mid: seq<T>, after: seq<T>, x: seq<T>, y: seq<T>, xy: seq<T>)
    requires mid == before + x && after == mid + y && xy == x + y
    ensures after == before + xy
  {
    assert before + x + y == before + (x + y);
  }

  /** A batch taken on the way to a run's end extends what the rest of the
      run took. */
  lemma TookFromPrepend(page: Page, before: LoopState, mid: LoopState, r: Report, b: seq<Node>, t: seq<Node>)
    requires mid.seen == before.seen + Handles(b) && mid.tweets == before.tweets + Texts(b)
    requires forall n :: n in b ==> n in ListedNodes(page, r.cycles)
    requires TookFrom(page, mid, r, t)
    ensures TookFrom(page, before, r, b + t)
  {
    HandlesAppend(b, t);
    AppendInTurn(before.seen, mid.seen, r.state.seen, Handles(b), Handles(t), Handles(b + t));
    TextsAppend(b, t);
    AppendInTurn(before.tweets, mid.tweets, r.state.tweets, Texts(b), Texts(t), Texts(b + t));
  }

  /** Cycle `k`'s batch consists of elements its poll listed. */
  lemma BatchListed(page: Page, maxTweets: int, st: LoopState, k: nat, m: nat)
    requires k < m
    ensures forall n :: n in Cycle(st, PollAt(page, k), maxTweets).batch ==>
      n in PollNodes(PollAt(page, k)) && n in ListedNodes(page, m)
  {
    var poll := PollAt(page, k);
    if poll.Listed? {
      UnseenMembers(poll.nodes, st.seen);
    }
    ListedNodesGrow(page, k + 1, m);
  }

  lemma {:induction false} CyclesTaken(page: Page, maxTweets: int, st: LoopState, k: nat, scrolls: nat)
    requires st.loaded < maxTweets && Tallied(st)
    ensures TookFrom(page, st, Cycles(page, maxTweets, st, k, scrolls), Taken(page, maxTweets, st, k))
    decreases maxTweets - st.loaded
  {
    var c := Cycle(st, PollAt(page, k), maxTweets);
    var r := Cycles(page, maxTweets, st, k, scrolls);
    BatchListed(page, maxTweets, st, k, r.cycles);
    if c.next.Scroll? {
      CyclesScroll(page, maxTweets, st, k, scrolls);
      CyclesTaken(page, maxTweets, c.state, k + 1, scrolls + 1);
      TookFromPrepend(page, st, c.state, r, c.batch, Taken(page, maxTweets, c.state, k + 1));
    } else {
      CyclesBreak(page, maxTweets, st, k, scrolls);
      assert c.batch + [] == c.batch;
      TookFromPrepend(page, st, c.state, r, c.batch, []);
    }
  }

  /** What a run collects: the elements it took, in the order it took them,
      give exactly its remembered handles, and their texts (stale ones
      contributing none) are exactly the collected texts, in the same order;
      every element taken was listed by one of the run's polls. With
      `CollectNoDup`, no two collected texts come from the same element. */
  lemma CollectTaken(page: Page, maxTweets: int)
    ensures Collect(page, maxTweets).state.seen == Handles(RunTaken(page, maxTweets))
    ensures Collect(page, maxTweets).state.tweets == Texts(RunTaken(page, maxTweets))
    ensures var r := Collect(page, maxTweets);
      forall n :: n in RunTaken(page, maxTweets) ==> n in ListedNodes(page, r.cycles)
  {
    if maxTweets > 0 {
      CyclesTaken(page, maxTweets, Start, 0, 0);
    }
  }

  // ---- every listed element is taken -------------------------------------

  /** After a cycle the taken handles are those taken before plus every
      handle the poll listed. */
  lemma CycleCovers(st: LoopState, poll: Poll, maxTweets: int)
    ensures SetOf(Cycle(st, poll, maxTweets).state.seen) == SetOf(st.seen) + PollHandles(poll)
  {
    var c := Cycle(st, poll, maxTweets);
    if poll.Listed? {
      UnseenMembers(poll.nodes, st.seen);
      forall h | h in PollHandles(poll) ensures h in SetOf(c.state.seen) {
        var n :| n in poll.nodes && n.handle == h;
        if h !in st.seen {
          assert n in c.batch;
          var i :| 0 <= i < |c.batch| && c.batch[i] == n;
          HandlesAt(c.batch, i);
          assert c.state.seen[|st.seen| + i] == h;
        }
      }
      forall h | h in SetOf(c.state.seen) ensures h in SetOf(st.seen) + PollHandles(poll) {
        var i :| 0 <= i < |c.state.seen| && c.state.seen[i] == h;
        if i >= |st.seen| {
          HandlesAt(c.batch, i - |st.seen|);
          assert c.batch[i - |st.seen|] in c.batch;
        }
      }
    }
  }

  lemma {:induction false} CyclesCover(page: Page, maxTweets: int, st: LoopState, k: nat, scrolls: nat)
    requires st.loaded < maxTweets && Tallied(st)
    requires SetOf(st.seen) == ListedBefore(page, k)
    ensures var r := Cycles(page, maxTweets, st, k, scrolls);
      SetOf(r.state.seen) == ListedBefore(page, r.cycles)
    decreases maxTweets - st.loaded
  {
    var c := Cycle(st, PollAt(page, k), maxTweets);
    assert SetOf(c.state.seen) == ListedBefore(page, k + 1) by {
      CycleCovers(st, PollAt(page, k), maxTweets);
    }
    if c.next.Scroll? {
      CyclesScroll(page, maxTweets, st, k, scrolls);
      CyclesCover(page, maxTweets, c.state, k + 1, scrolls + 1);
    } else {
      CyclesBreak(page, maxTweets, st, k, scrolls);
    }
  }

  /** The handles a run ends up with are exactly the handles its polls
      listed: nothing listed is passed over (stale ones included), and
      nothing is taken that was not listed. */
  lemma CollectCovers(page: Page, maxTweets: int)
    ensures var r := Collect(page, maxTweets);
      SetOf(r.state.seen) == ListedBefore(page, r.cycles)
  {
    if maxTweets > 0 {
      assert SetOf(Start.seen) == {};
      CyclesCover(page, maxTweets, Start, 0, 0);
    }
  }

  // ---- two concrete runs -------------------------------------------------

  function Post(id: nat): Node {
    Node(Handle(id), Spans(["post"]))
  }

  /** A page that first shows three posts, then two more below them, then
      nothing new. */
  const GrowingPage: Page := [
    Listed([Post(1), Post(2), Post(3)]),
    Listed([Post(1), Post(2), Post(3), Post(4), Post(5)]),
    Listed([Post(1), Post(2), Post(3), Post(4), Post(5)])
  ]

  /** With a target of five, the second cycle reaches the target and the run
      ends there: one scroll, two cycles, five posts, and the third poll is
      never made. */
  lemma TargetReachedAfterSecondBatch()
    ensures var r := Collect(GrowingPage, 5);
      && r.stop.TargetReached? && r.cycles == 2 && r.scrolls == 1
      && |r.state.tweets| == 5 && r.state.loaded == 5
  {
    var c0 := Cycle(Start, GrowingPage[0], 5);
    GrowingFirstCycle();
    CyclesScroll(GrowingPage, 5, Start, 0, 0);
    GrowingSecondCycle(c0.state);
    CyclesBreak(GrowingPage, 5, c0.state, 1, 1);
  }

  lemma GrowingFirstCycle()
    ensures var c := Cycle(Start, GrowingPage[0], 5);
      && c.next.Scroll? && c.state.loaded == 3 && |c.state.tweets| == 3
      && c.state.seen == [Handle(1), Handle(2), Handle(3)]
  {
    var first := [Post(1), Post(2), Post(3)];
    var c := Cycle(Start, GrowingPage[0], 5);
    FirstListingUnseen();
    assert c.batch == first;
    assert StaleCount(first) == 0 by {
      assert StaleCount(first[1..]) == 0 by { assert StaleCount(first[2..]) == 0; }
    }
    assert c.state.seen == [] + Handles(first);
    FirstHandles();
  }

  lemma FirstListingUnseen()
    ensures Unseen([Post(1), Post(2), Post(3)], []) == [Post(1), Post(2), Post(3)]
  {
    var first := [Post(1), Post(2), Post(3)];
    assert Unseen(first[2..], []) == [Post(3)] by { assert first[2..][1..] == []; }
    assert Unseen(first[1..], []) == [Post(2), Post(3)] by { assert first[1..][1..] == first[2..]; }
  }

  lemma FirstHandles()
    ensures Handles([Post(1), Post(2), Post(3)]) == [Handle(1), Handle(2), Handle(3)]
  {
    var first := [Post(1), Post(2), Post(3)];
    assert Handles(first[2..]) == [Handle(3)] by { assert first[2..][1..] == []; }
    assert Handles(first[1..]) == [Handle(2), Handle(3)] by { assert first[1..][1..] == first[2..]; }
  }

  lemma GrowingSecondCycle(st: LoopState)
    requires st.seen == [Handle(1), Handle(2), Handle(3)] && st.loaded == 3 && |st.tweets| == 3
    ensures var c := Cycle(st, GrowingPage[1], 5);
      && c.next.Break? && c.next.reason.TargetReached? && c.state.loaded == 5 && |c.state.tweets| == 5
  {
    var c := Cycle(st, GrowingPage[1], 5);
    SecondListingUnseen(st.seen);
    assert c.batch == [Post(4), Post(5)];
    assert StaleCount(c.batch[1..]) == 0;
  }

  lemma SecondListingUnseen(seen: seq<Handle>)
    requires seen == [Handle(1), Handle(2), Handle(3)]
    ensures Unseen(GrowingPage[1].nodes, seen) == [Post(4), Post(5)]
  {
    var all := GrowingPage[1].nodes;
    NewPostsUnseen(seen);
    assert all[3..] == [Post(4), Post(5)];
    assert Unseen(all[2..], seen) == [Post(4), Post(5)] by {
      assert all[2..][1..] == all[3..];
    }
    assert Unseen(all[1..], seen) == [Post(4), Post(5)] by {
      assert all[1..][1..] == all[2..];
    }
  }

  lemma NewPostsUnseen(seen: seq<Handle>)
    requires seen == [Handle(1), Handle(2), Handle(3)]
    ensures Unseen([Post(4), Post(5)], seen) == [Post(4), Post(5)]
  {
    var added := [Post(4), Post(5)];
    assert Handle(4) !in seen && Handle(5) !in seen;
    assert Unseen(added[1..], seen) == [Post(5)] by {
      assert added[1..][1..] == [];
    }
  }

  /** A page whose only post goes stale while being read and is then listed
      again, readable. */
  const StaleThenReadable: Page := [
    Listed([Node(Handle(7), Stale)]),
    Listed([Node(Handle(7), Spans(["hello"]))])
  ]

  /** A stale element is still taken and counted, so when it is listed again
      it is not re-read: the run collects nothing and ends on the second poll
      for lack of new elements. */
  lemma StaleElementNeverRetried()
    ensures var r := Collect(StaleThenReadable, 3);
      && r.stop.NoNewTweets? && r.cycles == 2
      && r.state.tweets == [] && r.state.seen == [Handle(7)] && r.state.loaded == 1
  {
    var c0 := Cycle(Start, StaleThenReadable[0], 3);
    assert Unseen([Node(Handle(7), Stale)], []) == [Node(Handle(7), Stale)];
    assert c0.state.loaded == 1 && c0.next.Scroll? && c0.state.tweets == [];
    CyclesScroll(StaleThenReadable, 3, Start, 0, 0);
    assert c0.state.seen == [Handle(7)];
    var c1 := Cycle(c0.state, StaleThenReadable[1], 3);
    assert c1.next.Break? && c1.next.reason.NoNewTweets?;
    CyclesBreak(StaleThenReadable, 3, c0.state, 1, 1);
  }
}

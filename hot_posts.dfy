/** The incremental Top-K "hot list" of models/posts.js: a bounded window of posts ranked by
    score (up votes minus down votes) and, on equal score, by recency, kept up to date by folding
    one change event at a time into it. */
module HotPosts {
  import opened Common
  import opened Ranking

  /** The fields of a post that the fold reads. */
  datatype ScoredPost = ScoredPost(postId: string, upVote: int, downVote: int, creation: int)

  /** `calcScore`: the ranking score of a post, the net of its votes. It is positive exactly when
      up votes outnumber down votes, and zero exactly when they balance. */
  function CalcScore(p: ScoredPost): (r: int)
    ensures r > 0 <==> p.upVote > p.downVote
    ensures r == 0 <==> p.upVote == p.downVote
  {
    p.upVote - p.downVote
  }

  function RankKey(p: ScoredPost): Key
  {
    Key(CalcScore(p), p.creation)
  }

  function PostIdOf(p: ScoredPost): string
  {
    p.postId
  }

  /** The placement test of the fold: c goes in front of e when it has a higher score,
      or the same score and a strictly newer creation time.
      It is the strict form of the shared rank order: c out-ranks e exactly when e may not stand
      before c. */
  function OutRanks(c: ScoredPost, e: ScoredPost): (b: bool)
    ensures b <==> !Precedes(RankKey(e), RankKey(c))
  {
    CalcScore(c) > CalcScore(e) || (CalcScore(c) == CalcScore(e) && c.creation > e.creation)
  }

  /** Older than the horizon `pastHotline`; a post exactly at the horizon is still hot. */
  predicate Expired(p: ScoredPost, pastHotline: int)
  {
    p.creation < pastHotline
  }

  /** The change counts as removed when flagged so, or when it is itself expired. */
  predicate IsRemoved(change: ScoredPost, isRemoved: bool, pastHotline: int)
  {
    isRemoved || Expired(change, pastHotline)
  }

  /** An old member is carried over only when it is not the changed post and not expired. */
  predicate Keeps(e: ScoredPost, change: ScoredPost, pastHotline: int)
  {
    e.postId != change.postId && !Expired(e, pastHotline)
  }

  /** The old members that may be carried into the new window, in their old order. */
  function Survivors(w: seq<ScoredPost>, change: ScoredPost, pastHotline: int): (r: seq<ScoredPost>)
    ensures |r| <= |w|
  {
    if w == [] then []
    else (if Keeps(w[0], change, pastHotline) then [w[0]] else []) + Survivors(w[1..], change, pastHotline)
  }

  /** The survivors are exactly the old members that are kept. */
  lemma {:induction false} SurvivorsMembers(w: seq<ScoredPost>, change: ScoredPost, pastHotline: int)
    ensures forall e :: e in Survivors(w, change, pastHotline) <==> e in w && Keeps(e, change, pastHotline)
  {
    if w != [] {
      SurvivorsMembers(w[1..], change, pastHotline);
      assert w == [w[0]] + w[1..];
    }
  }

  /** s with c placed before the first element it out-ranks, or at the end. */
  function InsertRanked(s: seq<ScoredPost>, c: ScoredPost): (r: seq<ScoredPost>)
    ensures |r| == |s| + 1
    ensures c in r
  {
    if s == [] then [c]
    else if OutRanks(c, s[0]) then [c] + s
    else [s[0]] + InsertRanked(s[1..], c)
  }

  /** Insertion adds the change once and loses nothing. */
  lemma {:induction false} InsertRankedMembers(s: seq<ScoredPost>, c: ScoredPost)
    ensures multiset(InsertRanked(s, c)) == multiset(s) + multiset{c}
    ensures forall e :: e in InsertRanked(s, c) <==> e in s || e == c
  {
    if s != [] {
      assert s == [s[0]] + s[1..];
      if !OutRanks(c, s[0]) {
        InsertRankedMembers(s[1..], c);
      }
    }
  }

  /** The window after one fold, stated declaratively: the surviving old members with the
      change inserted by rank (unless it is removed), cut to the first `limit`. */
  function NextWindow(w: seq<ScoredPost>, change: ScoredPost, isRemoved: bool, pastHotline: int, limit: nat)
    : (r: seq<ScoredPost>)
    ensures |r| <= limit
  {
    var s := Survivors(w, change, pastHotline);
    Truncate(if IsRemoved(change, isRemoved, pastHotline) then s else InsertRanked(s, change), limit)
  }

  /** What the fold still has to emit from the old members at index `i` and after, step by step as
      the scan does it; `placed` says whether the change is already placed (or is not to be placed). */
  ghost function Pending(w: seq<ScoredPost>, i: nat, change: ScoredPost, pastHotline: int, placed: bool)
    : seq<ScoredPost>
    requires i <= |w|
    decreases |w| - i, !placed
  {
    if i == |w| then (if placed then [] else [change])
    else if !Keeps(w[i], change, pastHotline) then Pending(w, i + 1, change, pastHotline, placed)
    else if !placed && OutRanks(change, w[i]) then [change] + Pending(w, i, change, pastHotline, true)
    else [w[i]] + Pending(w, i + 1, change, pastHotline, placed)
  }

  /** The step-by-step output is the declarative one: the survivors, with the change inserted by rank
      unless it is already placed. */
  lemma {:induction false} PendingIsInsertion(w: seq<ScoredPost>, i: nat, change: ScoredPost, pastHotline: int,
                                              placed: bool)
    requires i <= |w|
    ensures Pending(w, i, change, pastHotline, placed) ==
              var s := Survivors(w[i..], change, pastHotline);
              if placed then s else InsertRanked(s, change)
    decreases |w| - i, !placed
  {
    if i < |w| {
      var rest := w[i..];
      assert rest[0] == w[i] && rest[1..] == w[i + 1..];
      var t := Survivors(w[i + 1..], change, pastHotline);
      PendingIsInsertion(w, i + 1, change, pastHotline, placed);
      if Keeps(w[i], change, pastHotline) {
        var s := [w[i]] + t;
        assert Survivors(rest, change, pastHotline) == s;
        assert s[0] == w[i] && s[1..] == t;
        if !placed && OutRanks(change, w[i]) {
          PendingIsInsertion(w, i, change, pastHotline, true);
        }
      } else {
        assert Survivors(rest, change, pastHotline) == t;
      }
    }
  }

  /** The single bounded pass of `handlePostUpdate` over the current window `topPosts`, building a fresh
      window for the change `postChange` at time `now`. */
  method RebuildWindow(topPosts: seq<ScoredPost>, topPostsLimit: nat, hotPostsPeriod: int,
                       postChange: ScoredPost, isRemoved: bool, now: int)
    returns (newPosts: seq<ScoredPost>)
    ensures newPosts == NextWindow(topPosts, postChange, isRemoved, now - hotPostsPeriod, topPostsLimit)
  {
    var len := |topPosts|;
    var pastHotline := now - hotPostsPeriod;
    // updates on an expired post are treated as removals
    var removed := isRemoved || postChange.creation < pastHotline;
    var found := false;
    var count := 0;
    newPosts := [];
    var index := 0;
    var changeScore := CalcScore(postChange);
    ghost var target := Pending(topPosts, 0, postChange, pastHotline, removed);
    while index < len && count < topPostsLimit
      invariant index <= len
      invariant count == |newPosts| <= topPostsLimit
      invariant found ==> !removed
      invariant target == newPosts + Pending(topPosts, index, postChange, pastHotline, removed || found)
      decreases len - index, !found
    {
      var e := topPosts[index];
      ScanStep(topPosts, index, postChange, pastHotline, removed || found);
      // drop the old copy of the changed post, and lazily evict expired members
      if e.postId == postChange.postId || e.creation < pastHotline {
        index := index + 1;
        continue;
      }
      var item;
      if removed {
        // models/posts.js:117 tests the id once more here; equal ids were already skipped above
        item := e;
        index := index + 1;
      } else {
        var score := CalcScore(e);
        if !found && (changeScore > score || (changeScore == score && postChange.creation > e.creation)) {
          item := postChange;
          found := true;
        } else {
          item := e;
          index := index + 1;
        }
      }
      AppendStep(newPosts, item, Pending(topPosts, index, postChange, pastHotline, removed || found));
      newPosts := newPosts + [item];
      count := count + 1;
    }
    ScanFinished(topPosts, postChange, isRemoved, pastHotline, topPostsLimit, newPosts, index, found);
    // the change was never placed and there is room: it goes at the tail
    if !found && !removed && |newPosts| < topPostsLimit {
      newPosts := newPosts + [postChange];
    }
  }

  /** One step of the scan, read off the definition of `Pending`. */
  lemma ScanStep(w: seq<ScoredPost>, i: nat, change: ScoredPost, pastHotline: int, placed: bool)
    requires i < |w|
    ensures !Keeps(w[i], change, pastHotline) ==>
              Pending(w, i, change, pastHotline, placed) == Pending(w, i + 1, change, pastHotline, placed)
    ensures Keeps(w[i], change, pastHotline) && (placed || !OutRanks(change, w[i])) ==>
              Pending(w, i, change, pastHotline, placed) == [w[i]] + Pending(w, i + 1, change, pastHotline, placed)
    ensures Keeps(w[i], change, pastHotline) && !placed && OutRanks(change, w[i]) ==>
              Pending(w, i, change, pastHotline, placed) == [change] + Pending(w, i, change, pastHotline, true)
  {
  }

  lemma AppendStep(out: seq<ScoredPost>, item: ScoredPost, rest: seq<ScoredPost>)
    ensures out + ([item] + rest) == (out + [item]) + rest
  {
  }

  /** When the scan stops (the members are used up or the window is full), the output so far, with
      the change appended when it is still unplaced and there is room, is the next window. */
  lemma ScanFinished(w: seq<ScoredPost>, change: ScoredPost, isRemoved: bool, pastHotline: int, limit: nat,
                     out: seq<ScoredPost>, index: nat, found: bool)
    requires index <= |w| && |out| <= limit
    requires found ==> !IsRemoved(change, isRemoved, pastHotline)
    requires Pending(w, 0, change, pastHotline, IsRemoved(change, isRemoved, pastHotline)) ==
             out + Pending(w, index, change, pastHotline, IsRemoved(change, isRemoved, pastHotline) || found)
    requires index == |w| || |out| == limit
    ensures NextWindow(w, change, isRemoved, pastHotline, limit) ==
            if !found && !IsRemoved(change, isRemoved, pastHotline) && |out| < limit then out + [change] else out
  {
    var removed := IsRemoved(change, isRemoved, pastHotline);
    PendingIsInsertion(w, 0, change, pastHotline, removed);
    assert w[0..] == w;
    if |out| == limit {
      TruncateAppend(out, Pending(w, index, change, pastHotline, removed || found), limit);
    }
  }

  /** The hot-list part of the `Posts` store: the published window and its limits. */
  class Posts {
    var topPosts: seq<ScoredPost>
    const topPostsLimit: nat
    const hotPostsDays: int
    const hotPostsPeriod: int

    /** The window is within the limit, in ranking order, and holds each post at most once. */
    ghost predicate Valid()
      reads this
    {
      |topPosts| <= topPostsLimit && SortedBy(topPosts, RankKey) && DistinctBy(topPosts, PostIdOf)
    }

    constructor (topPostsLimit: nat)
      ensures this.topPostsLimit == LimitOrDefault(topPostsLimit)
      ensures hotPostsDays == HotPostsDays && hotPostsPeriod == HotPostsPeriod
      ensures topPosts == []
      ensures Valid()
    {
      this.topPostsLimit := LimitOrDefault(topPostsLimit);
      topPosts := [];
      hotPostsDays := HotPostsDays;
      hotPostsPeriod := HotPostsDays * (86400 * 1000);
    }

    /** `handlePostUpdate`: folds one change into the window and publishes the result wholesale. */
    method HandlePostUpdate(postChange: ScoredPost, isRemoved: bool, now: int)
      modifies this
      ensures topPosts == NextWindow(old(topPosts), postChange, isRemoved, now - hotPostsPeriod, topPostsLimit)
      ensures |topPosts| <= topPostsLimit
      ensures forall e :: e in topPosts ==> e.creation >= now - hotPostsPeriod
      ensures IsRemoved(postChange, isRemoved, now - hotPostsPeriod) ==>
                forall e :: e in topPosts ==> e.postId != postChange.postId
      ensures old(Valid()) ==> Valid()
    {
      ghost var w := topPosts;
      ghost var pastHotline := now - hotPostsPeriod;
      var newPosts := RebuildWindow(topPosts, topPostsLimit, hotPostsPeriod, postChange, isRemoved, now);
      PublishedWindow(w, postChange, isRemoved, pastHotline, topPostsLimit, newPosts);
      topPosts := newPosts;
    }

    /** `getTopPosts`: the current window, as published. */
    method GetTopPosts() returns (r: seq<ScoredPost>)
      ensures r == topPosts
    {
      r := topPosts;
    }
  }

  // ---------------------------------------------------------------------------------------------
  // Properties of one fold

  /** What `handlePostUpdate` promises of the window it publishes, gathered for the class method. */
  lemma PublishedWindow(w: seq<ScoredPost>, change: ScoredPost, isRemoved: bool, pastHotline: int, limit: nat,
                        r: seq<ScoredPost>)
    requires r == NextWindow(w, change, isRemoved, pastHotline, limit)
    ensures forall e :: e in r ==> e.creation >= pastHotline
    ensures IsRemoved(change, isRemoved, pastHotline) ==> forall e :: e in r ==> e.postId != change.postId
    ensures SortedBy(w, RankKey) && DistinctBy(w, PostIdOf) ==> SortedBy(r, RankKey) && DistinctBy(r, PostIdOf)
  {
    WindowMembers(w, change, isRemoved, pastHotline, limit);
    if SortedBy(w, RankKey) && DistinctBy(w, PostIdOf) {
      NextWindowKeepsOrder(w, change, isRemoved, pastHotline, limit);
    }
  }

  /** Every member of the new window is either the (not removed) change itself, or an old member
      with a different id that is not expired. */
  lemma WindowMembers(w: seq<ScoredPost>, change: ScoredPost, isRemoved: bool, pastHotline: int, limit: nat)
    ensures forall e :: e in NextWindow(w, change, isRemoved, pastHotline, limit) ==>
              (e == change && !IsRemoved(change, isRemoved, pastHotline)) ||
              (e in w && e.postId != change.postId && e.creation >= pastHotline)
  {
    var s := Survivors(w, change, pastHotline);
    var full := if IsRemoved(change, isRemoved, pastHotline) then s else InsertRanked(s, change);
    TruncateFacts(full, limit);
    SurvivorsMembers(w, change, pastHotline);
    InsertRankedMembers(s, change);
  }

  /** A removed change is absent from the new window, and so is any expired post. */
  lemma RemovedChangeAbsent(w: seq<ScoredPost>, change: ScoredPost, isRemoved: bool, pastHotline: int, limit: nat)
    requires IsRemoved(change, isRemoved, pastHotline)
    ensures forall e :: e in NextWindow(w, change, isRemoved, pastHotline, limit) ==>
              e.postId != change.postId && !Expired(e, pastHotline)
  {
    WindowMembers(w, change, isRemoved, pastHotline, limit);
  }

  /** Drops every member with the given id, keeping the order of the rest. */
  function Without(s: seq<ScoredPost>, id: string): (r: seq<ScoredPost>)
    ensures forall e :: e in r <==> e in s && e.postId != id
  {
    if s == [] then [] else (if s[0].postId == id then [] else [s[0]]) + Without(s[1..], id)
  }

  predicate IsPrefix(a: seq<ScoredPost>, b: seq<ScoredPost>)
  {
    |a| <= |b| && a == b[..|a|]
  }

  lemma {:induction false} WithoutInsertRanked(s: seq<ScoredPost>, c: ScoredPost)
    requires forall e :: e in s ==> e.postId != c.postId
    ensures Without(InsertRanked(s, c), c.postId) == s
  {
    if s == [] {
      assert Without([c], c.postId) == [] + Without([], c.postId);
    } else {
      var r := InsertRanked(s, c);
      if OutRanks(c, s[0]) {
        assert r[1..] == s;
        WithoutAbsent(s, c.postId);
      } else {
        assert r[0] == s[0] && r[1..] == InsertRanked(s[1..], c);
        WithoutInsertRanked(s[1..], c);
        assert s == [s[0]] + s[1..];
      }
    }
  }

  lemma {:induction false} WithoutAbsent(s: seq<ScoredPost>, id: string)
    requires forall e :: e in s ==> e.postId != id
    ensures Without(s, id) == s
  {
    if s != [] {
      WithoutAbsent(s[1..], id);
      assert s == [s[0]] + s[1..];
    }
  }

  lemma {:induction false} WithoutTruncate(s: seq<ScoredPost>, id: string, n: nat)
    ensures IsPrefix(Without(Truncate(s, n), id), Without(s, id))
  {
    if s != [] && n > 0 {
      TruncateCons(s[0], s[1..], n);
      assert s == [s[0]] + s[1..];
      var t := Truncate(s, n);
      assert t[0] == s[0] && t[1..] == Truncate(s[1..], n - 1);
      WithoutTruncate(s[1..], id, n - 1);
    } else if s != [] {
      assert Truncate(s, n) == [];
    }
  }

  /** Old members keep their relative order: with the change's id dropped, the new window is a
      prefix of the surviving old members. */
  lemma SurvivorOrderKept(w: seq<ScoredPost>, change: ScoredPost, isRemoved: bool, pastHotline: int, limit: nat)
    ensures IsPrefix(Without(NextWindow(w, change, isRemoved, pastHotline, limit), change.postId),
                     Survivors(w, change, pastHotline))
  {
    var s := Survivors(w, change, pastHotline);
    SurvivorsMembers(w, change, pastHotline);
    WithoutAbsent(s, change.postId);
    if IsRemoved(change, isRemoved, pastHotline) {
      WithoutTruncate(s, change.postId, limit);
    } else {
      WithoutTruncate(InsertRanked(s, change), change.postId, limit);
      WithoutInsertRanked(s, change);
    }
  }

  /** Some one of the first n members of s is out-ranked by c. */
  predicate OutRanksOneOf(c: ScoredPost, s: seq<ScoredPost>, n: nat)
  {
    exists i :: 0 <= i < n && i < |s| && OutRanks(c, s[i])
  }

  lemma OutRanksOneOfCons(c: ScoredPost, s: seq<ScoredPost>, n: nat)
    requires s != [] && n > 0
    ensures OutRanksOneOf(c, s, n) <==> OutRanks(c, s[0]) || OutRanksOneOf(c, s[1..], n - 1)
  {
    if OutRanksOneOf(c, s, n) && !OutRanks(c, s[0]) {
      var i :| 0 <= i < n && i < |s| && OutRanks(c, s[i]);
      assert OutRanks(c, s[1..][i - 1]);
    }
    if OutRanksOneOf(c, s[1..], n - 1) {
      var i :| 0 <= i < n - 1 && i < |s[1..]| && OutRanks(c, s[1..][i]);
      assert OutRanks(c, s[i + 1]);
    }
  }

  lemma {:induction false} InsertRankedEnters(s: seq<ScoredPost>, c: ScoredPost, n: nat)
    requires c !in s
    ensures c in Truncate(InsertRanked(s, c), n) <==> n > 0 && (|s| < n || OutRanksOneOf(c, s, n))
  {
    if s == [] {
    } else if n == 0 {
    } else if OutRanks(c, s[0]) {
      TruncateCons(c, s, n);
      OutRanksOneOfCons(c, s, n);
    } else {
      TruncateCons(s[0], InsertRanked(s[1..], c), n);
      InsertRankedEnters(s[1..], c, n - 1);
      OutRanksOneOfCons(c, s, n);
    }
  }

  /** A change that is not removed enters the window exactly when there is room for it among the
      surviving members, or it out-ranks one of the first `limit` of them. */
  lemma ChangeEntersWindow(w: seq<ScoredPost>, change: ScoredPost, isRemoved: bool, pastHotline: int, limit: nat)
    requires !IsRemoved(change, isRemoved, pastHotline)
    ensures var s := Survivors(w, change, pastHotline);
            change in NextWindow(w, change, isRemoved, pastHotline, limit) <==>
              limit > 0 && (|s| < limit || OutRanksOneOf(change, s, limit))
  {
    var s := Survivors(w, change, pastHotline);
    SurvivorsMembers(w, change, pastHotline);
    InsertRankedEnters(s, change, limit);
  }

  lemma {:induction false} SurvivorsSorted(w: seq<ScoredPost>, change: ScoredPost, pastHotline: int)
    requires SortedBy(w, RankKey) && DistinctBy(w, PostIdOf)
    ensures SortedBy(Survivors(w, change, pastHotline), RankKey)
    ensures DistinctBy(Survivors(w, change, pastHotline), PostIdOf)
  {
    if w != [] {
      assert w == [w[0]] + w[1..];
      SortedByCons(w[0], w[1..], RankKey);
      DistinctByCons(w[0], w[1..], PostIdOf);
      SurvivorsSorted(w[1..], change, pastHotline);
      var t := Survivors(w[1..], change, pastHotline);
      SurvivorsMembers(w[1..], change, pastHotline);
      if Keeps(w[0], change, pastHotline) {
        SortedByCons(w[0], t, RankKey);
        DistinctByCons(w[0], t, PostIdOf);
      }
    }
  }

  lemma {:induction false} InsertRankedSorted(s: seq<ScoredPost>, c: ScoredPost)
    requires SortedBy(s, RankKey) && DistinctBy(s, PostIdOf)
    requires forall e :: e in s ==> e.postId != c.postId
    ensures SortedBy(InsertRanked(s, c), RankKey)
    ensures DistinctBy(InsertRanked(s, c), PostIdOf)
  {
    if s == [] {
    } else {
      assert s == [s[0]] + s[1..];
      SortedByCons(s[0], s[1..], RankKey);
      DistinctByCons(s[0], s[1..], PostIdOf);
      if OutRanks(c, s[0]) {
        SortedByCons(c, s, RankKey);
        DistinctByCons(c, s, PostIdOf);
      } else {
        InsertRankedSorted(s[1..], c);
        var r := InsertRanked(s[1..], c);
        InsertRankedMembers(s[1..], c);
        SortedByCons(s[0], r, RankKey);
        DistinctByCons(s[0], r, PostIdOf);
      }
    }
  }

  /** If the old window is in ranking order with distinct ids, so is the new one. */
  lemma NextWindowKeepsOrder(w: seq<ScoredPost>, change: ScoredPost, isRemoved: bool, pastHotline: int, limit: nat)
    requires SortedBy(w, RankKey) && DistinctBy(w, PostIdOf)
    ensures SortedBy(NextWindow(w, change, isRemoved, pastHotline, limit), RankKey)
    ensures DistinctBy(NextWindow(w, change, isRemoved, pastHotline, limit), PostIdOf)
  {
    var s := Survivors(w, change, pastHotline);
    SurvivorsSorted(w, change, pastHotline);
    SurvivorsMembers(w, change, pastHotline);
    var full := if IsRemoved(change, isRemoved, pastHotline) then s else InsertRanked(s, change);
    if !IsRemoved(change, isRemoved, pastHotline) {
      InsertRankedSorted(s, change);
    }
    SortedTruncate(full, limit, RankKey);
    TruncateFacts(full, limit);
  }

  lemma {:induction false} SurvivorsAllKept(w: seq<ScoredPost>, change: ScoredPost, pastHotline: int)
    requires forall e :: e in w ==> Keeps(e, change, pastHotline)
    ensures Survivors(w, change, pastHotline) == w
  {
    if w != [] {
      SurvivorsAllKept(w[1..], change, pastHotline);
      assert w == [w[0]] + w[1..];
    }
  }

  lemma {:induction false} ReinsertIdempotent(s: seq<ScoredPost>, c: ScoredPost, pastHotline: int, n: nat)
    requires forall e :: e in s ==> Keeps(e, c, pastHotline)
    ensures Truncate(InsertRanked(Survivors(Truncate(InsertRanked(s, c), n), c, pastHotline), c), n)
            == Truncate(InsertRanked(s, c), n)
  {
    if n == 0 {
    } else if s == [] {
      assert Survivors([c], c, pastHotline) == [] + Survivors([], c, pastHotline);
    } else if OutRanks(c, s[0]) {
      assert s == [s[0]] + s[1..];
      TruncateCons(c, s, n);
      var t := Truncate(s, n - 1);
      TruncateFacts(s, n - 1);
      var w1 := [c] + t;
      assert Survivors(w1, c, pastHotline) == Survivors(t, c, pastHotline) by {
        assert w1[1..] == t;
      }
      SurvivorsAllKept(t, c, pastHotline);
      if t == [] {
        assert InsertRanked(t, c) == [c];
      } else {
        assert t[0] == s[0];
        assert InsertRanked(t, c) == [c] + t;
        TruncateCons(c, t, n);
      }
    } else {
      var s' := s[1..];
      assert s == [s[0]] + s';
      var t := Truncate(InsertRanked(s', c), n - 1);
      TruncateCons(s[0], InsertRanked(s', c), n);
      var w1 := [s[0]] + t;
      assert w1[0] == s[0] && w1[1..] == t;
      var r := Survivors(t, c, pastHotline);
      assert Survivors(w1, c, pastHotline) == [s[0]] + r;
      var x := [s[0]] + r;
      assert x[0] == s[0] && x[1..] == r;
      assert InsertRanked(x, c) == [s[0]] + InsertRanked(r, c);
      TruncateCons(s[0], InsertRanked(r, c), n);
      ReinsertIdempotent(s', c, pastHotline, n - 1);
    }
  }

  /** Folding the same change twice in a row, at the same time, gives the window of folding it once. */
  lemma FoldIdempotent(w: seq<ScoredPost>, change: ScoredPost, isRemoved: bool, pastHotline: int, limit: nat)
    ensures NextWindow(NextWindow(w, change, isRemoved, pastHotline, limit), change, isRemoved, pastHotline, limit)
            == NextWindow(w, change, isRemoved, pastHotline, limit)
  {
    var s := Survivors(w, change, pastHotline);
    var w1 := NextWindow(w, change, isRemoved, pastHotline, limit);
    SurvivorsMembers(w, change, pastHotline);
    if IsRemoved(change, isRemoved, pastHotline) {
      TruncateFacts(s, limit);
      SurvivorsAllKept(w1, change, pastHotline);
    } else {
      ReinsertIdempotent(s, change, pastHotline, limit);
    }
  }

  /** A removal for a post that is not in the window, of a window within the limit with no expired
      member, leaves the window as it is. */
  lemma AbsentRemovalKeepsWindow(w: seq<ScoredPost>, change: ScoredPost, isRemoved: bool, pastHotline: int, limit: nat)
    requires IsRemoved(change, isRemoved, pastHotline)
    requires forall e :: e in w ==> e.postId != change.postId && !Expired(e, pastHotline)
    requires |w| <= limit
    ensures NextWindow(w, change, isRemoved, pastHotline, limit) == w
  {
    SurvivorsAllKept(w, change, pastHotline);
  }

  /** With a limit of 1, a change with the sole member's score and a strictly newer creation time
      displaces it. */
  lemma NewerTieDisplacesSoleMember(a: ScoredPost, c: ScoredPost, pastHotline: int)
    requires a.postId != c.postId && !Expired(a, pastHotline) && !Expired(c, pastHotline)
    requires CalcScore(a) == CalcScore(c) && a.creation < c.creation
    ensures NextWindow([a], c, false, pastHotline, 1) == [c]
  {
    assert [a][1..] == [];
    assert Survivors([a], c, pastHotline) == [a] + Survivors([], c, pastHotline) == [a];
    assert InsertRanked([a], c) == [c] + [a];
    TruncateAppend([c], [a], 1);
  }

  /** A change tied with a member on both score and creation time is placed after it: with room for
      both the window is the member then the change, and with a limit of 1 the member stays and the
      change is left out. */
  lemma ExactTieStaysBehind(a: ScoredPost, c: ScoredPost, pastHotline: int)
    requires a.postId != c.postId && !Expired(a, pastHotline)
    requires CalcScore(a) == CalcScore(c) && a.creation == c.creation
    ensures NextWindow([a], c, false, pastHotline, 2) == [a, c]
    ensures NextWindow([a], c, false, pastHotline, 1) == [a]
  {
    assert [a][1..] == [];
    assert Survivors([a], c, pastHotline) == [a] + Survivors([], c, pastHotline) == [a];
    assert InsertRanked([a], c) == [a] + InsertRanked([], c) == [a] + [c];
    TruncateAppend([a], [c], 1);
  }
}

/** The in-memory post store of controllers/posts_dummy.js: each post carries one signed score,
    each user may add one (possibly negative) score delta per post; sequential string ids and a
    ranked "top posts" read. */
module ScoringStore {
  import opened Common
  import opened Decimal
  import opened Ranking

  /** One recorded vote: who voted, and the score it added. */
  datatype Vote = Vote(userId: string, score: int)

  /** A stored post: its owner, id, payload, score, creation time and the votes cast on it. */
  datatype Post = Post(userId: string, postId: string, post: Payload, score: int, creation: int, votes: seq<Vote>)

  /** What `getPost` hands back: the score and the payload. */
  datatype ScoredPost = ScoredPost(score: int, post: Payload)

  const CouldNotGetPost: string := "Couldn't get post"
  const AlreadyVoted: string := "Already voted"

  /** Posts rank by their stored score, then by creation time. */
  function RankKey(p: Post): Key
  {
    Key(p.score, p.creation)
  }

  function IdOf(p: Post): string
  {
    p.postId
  }

  function VoterOf(v: Vote): string
  {
    v.userId
  }

  /** The index of the first post with the given id, as the linear search of `_getPost` finds it. */
  function Locate(posts: seq<Post>, postId: string): (r: Option<nat>)
    ensures r.Some? ==> r.value < |posts| && posts[r.value].postId == postId
    ensures r.Some? ==> forall k :: 0 <= k < r.value ==> posts[k].postId != postId
    ensures r.None? <==> forall k :: 0 <= k < |posts| ==> posts[k].postId != postId
  {
    if posts == [] then None
    else if posts[0].postId == postId then Some(0)
    else match Locate(posts[1..], postId)
      case None => None
      case Some(k) =>
        assert posts[1..][k] == posts[k + 1];
        Some(k + 1)
  }

  /** Replacing a post by one with the same id does not move where an id is found. */
  lemma LocateSameId(posts: seq<Post>, i: nat, p: Post, postId: string)
    requires i < |posts| && p.postId == posts[i].postId
    ensures Locate(posts[i := p], postId) == Locate(posts, postId)
  {
    var after := posts[i := p];
    assert forall k :: 0 <= k < |posts| ==> after[k].postId == posts[k].postId;
  }

  /** Whether the user appears among the voters. */
  predicate HasVoted(votes: seq<Vote>, userId: string)
  {
    exists k :: 0 <= k < |votes| && votes[k].userId == userId
  }

  /** The post after the user's vote is recorded. */
  function AddVote(p: Post, userId: string, score: int): (r: Post)
    ensures r.score - p.score == score
    ensures r.votes == p.votes + [Vote(userId, score)]
    ensures r.userId == p.userId && r.postId == p.postId && r.post == p.post && r.creation == p.creation
  {
    p.(votes := p.votes + [Vote(userId, score)], score := p.score + score)
  }

  /** The outcome of `votePost` on the posts table, and the table afterwards. */
  function VoteOn(posts: seq<Post>, userId: string, postId: string, score: int): (r: (Result<bool>, seq<Post>))
    ensures |r.1| == |posts|
    ensures r.0.Success? ==> r.0.value && Locate(posts, postId).Some?
    ensures r.0.Failure? ==> r.1 == posts && (r.0.error == CouldNotGetPost || r.0.error == AlreadyVoted)
  {
    match Locate(posts, postId)
    case None => (Failure(CouldNotGetPost), posts)
    case Some(i) =>
      if HasVoted(posts[i].votes, userId) then (Failure(AlreadyVoted), posts)
      else (Success(true), posts[i := AddVote(posts[i], userId, score)])
  }

  /** The outcome of `updatePost` (true when the payload was replaced), and the table afterwards. */
  function UpdateOn(posts: seq<Post>, userId: string, postId: string, updatedPost: Payload): (r: (bool, seq<Post>))
    ensures |r.1| == |posts|
    ensures r.0 ==> Locate(posts, postId).Some? && posts[Locate(posts, postId).value].userId == userId
    ensures !r.0 ==> r.1 == posts
  {
    match Locate(posts, postId)
    case None => (false, posts)
    case Some(i) =>
      if posts[i].userId != userId then (false, posts)
      else (true, posts[i := posts[i].(post := updatedPost)])
  }

  /** The sum of the scores the votes added. */
  function SumScores(votes: seq<Vote>): int
  {
    if votes == [] then 0 else SumScores(votes[..|votes| - 1]) + votes[|votes| - 1].score
  }

  /** A post's score is the sum of its votes, and no user voted on it twice. */
  ghost predicate Tallied(p: Post)
  {
    p.score == SumScores(p.votes) && DistinctBy(p.votes, VoterOf)
  }

  /** The table invariant: the counter is positive, ids are distinct decimal renderings of counter
      values already used, and every post is tallied. */
  ghost predicate Wellformed(posts: seq<Post>, postID: nat)
  {
    postID >= 1 &&
    DistinctBy(posts, IdOf) &&
    (forall p :: p in posts ==> 0 <= ParseDecimal(p.postId) < postID) &&
    (forall p :: p in posts ==> Tallied(p))
  }

  /** The posts created at or after the horizon: none is older than `pastHotline`. */
  predicate NoneExpired(posts: seq<Post>, pastHotline: int)
  {
    forall p :: p in posts ==> p.creation >= pastHotline
  }

  class PostsDummy {
    var posts: seq<Post>
    var postID: nat
    const topPostsLimit: nat
    const hotPostsDays: int
    const hotPostsPeriod: int

    ghost predicate Valid()
      reads this
    {
      Wellformed(posts, postID)
    }

    constructor (topPostsLimit: nat)
      ensures posts == [] && postID == 1
      ensures this.topPostsLimit == LimitOrDefault(topPostsLimit)
      ensures hotPostsDays == HotPostsDays && hotPostsPeriod == HotPostsPeriod
      ensures Valid()
    {
      posts := [];
      postID := 1;
      this.topPostsLimit := LimitOrDefault(topPostsLimit);
      hotPostsDays := HotPostsDays;
      hotPostsPeriod := HotPostsDays * (86400 * 1000);
    }

    /** `_getPost`: the linear search for the first post with the id. */
    method FindPost(postId: string) returns (r: Option<nat>)
      ensures r == Locate(posts, postId)
    {
      var i := 0;
      while i < |posts|
        invariant i <= |posts|
        invariant forall k :: 0 <= k < i ==> posts[k].postId != postId
      {
        if posts[i].postId == postId {
          return Some(i);
        }
        i := i + 1;
      }
      return None;
    }

    /** `createPost`: a fresh post with the next id, score 0, no votes, created at `now`. */
    method CreatePost(userId: string, newPost: Payload, now: int) returns (id: string)
      modifies this
      ensures id == NatToString(old(postID))
      ensures postID == old(postID) + 1
      ensures posts == old(posts) + [Post(userId, id, newPost, 0, now, [])]
      ensures old(Valid()) ==> Valid() && forall p :: p in old(posts) ==> p.postId != id
    {
      if Valid() {
        CreateKeepsWellformed(posts, postID, userId, newPost, now);
      }
      id := NatToString(postID);
      postID := postID + 1;
      posts := posts + [Post(userId, id, newPost, 0, now, [])];
    }

    /** `updatePost`: the owner replaces the payload; otherwise nothing happens (false). */
    method UpdatePost(userId: string, postId: string, updatedPost: Payload) returns (ok: bool)
      modifies this
      ensures (ok, posts) == UpdateOn(old(posts), userId, postId, updatedPost)
      ensures postID == old(postID)
      ensures old(Valid()) ==> Valid()
    {
      if Valid() {
        UpdateKeepsWellformed(posts, postID, userId, postId, updatedPost);
      }
      var found := FindPost(postId);
      if found.None? || posts[found.value].userId != userId {
        return false;
      }
      var i := found.value;
      posts := posts[i := posts[i].(post := updatedPost)];
      return true;
    }

    /** `getPost`: the score and payload of the post with the id, or an error. */
    method GetPost(postId: string) returns (r: Result<ScoredPost>)
      ensures r.Failure? <==> forall p :: p in posts ==> p.postId != postId
      ensures r.Failure? ==> r.error == CouldNotGetPost
      ensures r.Success? ==> Locate(posts, postId).Some? &&
                             var p := posts[Locate(posts, postId).value];
                             r.value == ScoredPost(p.score, p.post)
    {
      var found := FindPost(postId);
      if found.None? {
        return Failure(CouldNotGetPost);
      }
      var p := posts[found.value];
      return Success(ScoredPost(p.score, p.post));
    }

    /** `votePost`: records the user's first vote on an existing post and adds its score. */
    method VotePost(userId: string, postId: string, score: int) returns (outcome: Result<bool>)
      modifies this
      ensures (outcome, posts) == VoteOn(old(posts), userId, postId, score)
      ensures postID == old(postID)
      ensures old(Valid()) ==> Valid()
    {
      if Valid() {
        VoteKeepsWellformed(posts, postID, userId, postId, score);
      }
      var found := FindPost(postId);
      if found.None? {
        return Failure(CouldNotGetPost);
      }
      var i := found.value;
      var post := posts[i];
      var k := 0;
      while k < |post.votes|
        invariant k <= |post.votes|
        invariant forall j :: 0 <= j < k ==> post.votes[j].userId != userId
      {
        if post.votes[k].userId == userId {
          return Failure(AlreadyVoted);
        }
        k := k + 1;
      }
      post := post.(votes := post.votes + [Vote(userId, score)]);
      post := post.(score := post.score + score);
      posts := posts[i := post];
      return Success(true);
    }

    /** `getTopPosts`: sorts the table in place by rank and returns its first `topPostsLimit` posts.
        The comparator is only a consistent order when no post is expired; then the table ends up
        in ranking order. In every case it is only reordered. */
    method GetTopPosts(now: int) returns (top: seq<Post>)
      modifies this
      ensures multiset(posts) == multiset(old(posts))
      ensures NoneExpired(old(posts), now - hotPostsPeriod) ==> SortedBy(posts, RankKey)
      ensures top == Truncate(posts, topPostsLimit) && |top| <= topPostsLimit
      ensures NoneExpired(old(posts), now - hotPostsPeriod) ==>
                MapSeq(top, RankKey) == MapSeq(Truncate(RankSort(old(posts), RankKey), topPostsLimit), RankKey)
      ensures NoneExpired(old(posts), now - hotPostsPeriod) && DistinctBy(old(posts), RankKey) ==>
                top == Truncate(RankSort(old(posts), RankKey), topPostsLimit)
      ensures postID == old(postID)
      ensures old(Valid()) ==> Valid()
    {
      var pastHotline := now - hotPostsPeriod;
      ghost var before := posts;
      RankSortCorrect(posts, RankKey);
      ghost var reference := RankSort(posts, RankKey);
      assert multiset(reference) == multiset(posts) && SortedBy(reference, RankKey);
      var sorted :| multiset(sorted) == multiset(posts) &&
                    (NoneExpired(posts, pastHotline) ==> SortedBy(sorted, RankKey));
      posts := sorted;
      top := Truncate(posts, topPostsLimit);
      if NoneExpired(before, pastHotline) {
        TopAgreesWithReference(before, posts, topPostsLimit, RankKey);
      }
      if Wellformed(before, postID) {
        PermutationKeepsWellformed(before, posts, postID);
      }
    }
  }

  // ---------------------------------------------------------------------------------------------
  // Properties of the table operations

  /** A created post gets an id no existing post has, and the table stays well formed. */
  lemma CreateKeepsWellformed(posts: seq<Post>, postID: nat, userId: string, newPost: Payload, now: int)
    requires Wellformed(posts, postID)
    ensures forall p :: p in posts ==> p.postId != NatToString(postID)
    ensures Wellformed(posts + [Post(userId, NatToString(postID), newPost, 0, now, [])], postID + 1)
  {
    var id := NatToString(postID);
    ParseOfNatToString(postID);
    var p := Post(userId, id, newPost, 0, now, []);
    DistinctByAppend(posts, p, IdOf);
    assert Tallied(p);
  }

  /** The sum of a vote list grown by one vote. */
  lemma TallyAppend(votes: seq<Vote>, v: Vote)
    ensures SumScores(votes + [v]) == SumScores(votes) + v.score
  {
    assert (votes + [v])[..|votes + [v]| - 1] == votes;
  }

  /** Recording a vote by a user who has not voted keeps the post tallied. */
  lemma AddVoteKeepsTallied(p: Post, userId: string, score: int)
    requires Tallied(p) && !HasVoted(p.votes, userId)
    ensures Tallied(AddVote(p, userId, score))
  {
    TallyAppend(p.votes, Vote(userId, score));
    forall y | y in p.votes ensures VoterOf(y) != VoterOf(Vote(userId, score)) {
      var k :| 0 <= k < |p.votes| && p.votes[k] == y;
    }
    DistinctByAppend(p.votes, Vote(userId, score), VoterOf);
  }

  /** Replacing the post at i by a tallied post with the same id keeps the table well formed. */
  lemma ReplaceKeepsWellformed(posts: seq<Post>, postID: nat, i: nat, q: Post)
    requires Wellformed(posts, postID)
    requires i < |posts| && q.postId == posts[i].postId && Tallied(q)
    ensures Wellformed(posts[i := q], postID)
  {
    var after := posts[i := q];
    forall a, b | 0 <= a < b < |after| ensures IdOf(after[a]) != IdOf(after[b]) {
      assert IdOf(after[a]) == IdOf(posts[a]) && IdOf(after[b]) == IdOf(posts[b]);
    }
    forall p | p in after ensures 0 <= ParseDecimal(p.postId) < postID && Tallied(p) {
      var k :| 0 <= k < |after| && after[k] == p;
      if k != i {
        assert p == posts[k];
      }
    }
  }

  lemma VoteKeepsWellformed(posts: seq<Post>, postID: nat, userId: string, postId: string, score: int)
    requires Wellformed(posts, postID)
    ensures Wellformed(VoteOn(posts, userId, postId, score).1, postID)
  {
    var r := Locate(posts, postId);
    if r.Some? && !HasVoted(posts[r.value].votes, userId) {
      var i := r.value;
      assert posts[i] in posts;
      AddVoteKeepsTallied(posts[i], userId, score);
      ReplaceKeepsWellformed(posts, postID, i, AddVote(posts[i], userId, score));
    }
  }

  lemma UpdateKeepsWellformed(posts: seq<Post>, postID: nat, userId: string, postId: string, updatedPost: Payload)
    requires Wellformed(posts, postID)
    ensures Wellformed(UpdateOn(posts, userId, postId, updatedPost).1, postID)
  {
    var r := Locate(posts, postId);
    if r.Some? && posts[r.value].userId == userId {
      var i := r.value;
      assert posts[i] in posts;
      ReplaceKeepsWellformed(posts, postID, i, posts[i].(post := updatedPost));
    }
  }

  /** Reordering the table keeps it well formed. */
  lemma PermutationKeepsWellformed(posts: seq<Post>, sorted: seq<Post>, postID: nat)
    requires Wellformed(posts, postID)
    requires multiset(sorted) == multiset(posts)
    ensures Wellformed(sorted, postID)
  {
    DistinctByPermutation(posts, sorted, IdOf);
    forall p | p in sorted ensures p in posts {
      assert p in multiset(sorted);
    }
  }

  /** With distinct ids, the post found for an id is the one holding it. */
  lemma LocateDistinct(posts: seq<Post>, postId: string, i: nat)
    requires DistinctBy(posts, IdOf)
    requires i < |posts| && posts[i].postId == postId
    ensures Locate(posts, postId) == Some(i)
  {
  }

  /** Why a vote fails, and that a failed vote changes nothing: an unknown id gives
      "Couldn't get post", a user who already voted on the post gives "Already voted", and any
      other vote succeeds. */
  lemma VoteOutcome(posts: seq<Post>, userId: string, postId: string, score: int)
    requires DistinctBy(posts, IdOf)
    ensures var (res, after) := VoteOn(posts, userId, postId, score);
            (res == Failure(CouldNotGetPost) <==> forall p :: p in posts ==> p.postId != postId) &&
            (res == Failure(AlreadyVoted) <==>
               exists i :: 0 <= i < |posts| && posts[i].postId == postId && HasVoted(posts[i].votes, userId)) &&
            (res.Failure? || res == Success(true)) &&
            (res.Failure? ==> after == posts)
  {
    var res := VoteOn(posts, userId, postId, score).0;
    if exists i :: 0 <= i < |posts| && posts[i].postId == postId {
      var i :| 0 <= i < |posts| && posts[i].postId == postId;
      LocateDistinct(posts, postId, i);
      if res == Failure(AlreadyVoted) {
        assert HasVoted(posts[i].votes, userId);
      }
      if exists j :: 0 <= j < |posts| && posts[j].postId == postId && HasVoted(posts[j].votes, userId) {
        var j :| 0 <= j < |posts| && posts[j].postId == postId && HasVoted(posts[j].votes, userId);
        LocateDistinct(posts, postId, j);
      }
    } else {
      assert forall p :: p in posts ==> p.postId != postId;
    }
  }

  /** A successful vote changes exactly the voted post: one more vote record and the given score
      added; every other post is as it was. */
  lemma VoteEffect(posts: seq<Post>, userId: string, postId: string, score: int)
    requires DistinctBy(posts, IdOf)
    requires VoteOn(posts, userId, postId, score).0.Success?
    ensures var after := VoteOn(posts, userId, postId, score).1;
            |after| == |posts| &&
            forall i :: 0 <= i < |posts| ==>
              if posts[i].postId == postId then
                after[i].votes == posts[i].votes + [Vote(userId, score)] &&
                after[i].score == posts[i].score + score &&
                after[i].post == posts[i].post && after[i].userId == posts[i].userId &&
                after[i].creation == posts[i].creation
              else after[i] == posts[i]
  {
    var i := Locate(posts, postId).value;
    forall j | 0 <= j < |posts| && posts[j].postId == postId ensures j == i {
      LocateDistinct(posts, postId, j);
    }
  }

  /** Once a user's vote on a post succeeded, any further vote by that user on it fails with
      "Already voted" and changes nothing. */
  lemma RepeatVoteRejected(posts: seq<Post>, userId: string, postId: string, score: int, again: int)
    requires VoteOn(posts, userId, postId, score).0.Success?
    ensures var after := VoteOn(posts, userId, postId, score).1;
            VoteOn(after, userId, postId, again) == (Failure(AlreadyVoted), after)
  {
    var i := Locate(posts, postId).value;
    var q := AddVote(posts[i], userId, score);
    LocateSameId(posts, i, q, postId);
    assert q.votes[|q.votes| - 1].userId == userId;
  }

  /** Votes (ballots of user and score) on a post, one after the other, with their outcomes. */
  function VoteAll(posts: seq<Post>, ballots: seq<Vote>, postId: string): (seq<Result<bool>>, seq<Post>)
    decreases |ballots|
  {
    if ballots == [] then ([], posts)
    else
      var (res, next) := VoteOn(posts, ballots[0].userId, postId, ballots[0].score);
      var (rest, last) := VoteAll(next, ballots[1..], postId);
      ([res] + rest, last)
  }

  /** Ballots on an existing post by distinct users none of whom voted on it before all succeed, and
      the post's score grows by the sum of their scores. */
  lemma {:induction false} DistinctVotersSucceed(posts: seq<Post>, ballots: seq<Vote>, postId: string)
    requires Locate(posts, postId).Some?
    requires DistinctBy(ballots, VoterOf)
    requires forall b :: b in ballots ==> !HasVoted(posts[Locate(posts, postId).value].votes, b.userId)
    ensures var (results, last) := VoteAll(posts, ballots, postId);
            var i := Locate(posts, postId).value;
            |results| == |ballots| && (forall k :: 0 <= k < |results| ==> results[k] == Success(true)) &&
            Locate(last, postId) == Some(i) && |last| == |posts| &&
            last[i].score == posts[i].score + SumScores(ballots)
    decreases |ballots|
  {
    if ballots != [] {
      var i := Locate(posts, postId).value;
      var first := ballots[0];
      var q := AddVote(posts[i], first.userId, first.score);
      var next := posts[i := q];
      assert VoteOn(posts, first.userId, postId, first.score) == (Success(true), next);
      LocateSameId(posts, i, q, postId);
      var tail := ballots[1..];
      assert ballots == [first] + tail;
      DistinctByCons(first, tail, VoterOf);
      forall b | b in tail ensures !HasVoted(next[i].votes, b.userId) {
        assert b.userId != first.userId && b in ballots;
        assert !HasVoted(posts[i].votes, b.userId);
        forall k | 0 <= k < |q.votes| ensures q.votes[k].userId != b.userId {
          if k < |posts[i].votes| {
            assert q.votes[k] == posts[i].votes[k];
          }
        }
      }
      DistinctVotersSucceed(next, tail, postId);
      SumScoresCons(first, tail);
    }
  }

  /** Summing from the front: the first score plus the sum of the rest. */
  lemma {:induction false} SumScoresCons(v: Vote, votes: seq<Vote>)
    ensures SumScores([v] + votes) == v.score + SumScores(votes)
    decreases |votes|
  {
    if votes != [] {
      var init := votes[..|votes| - 1];
      assert ([v] + votes)[..|[v] + votes| - 1] == [v] + init;
      assert votes[..|votes| - 1] == init;
      SumScoresCons(v, init);
    } else {
      assert ([v] + votes)[..0] == [];
    }
  }

  /** An update succeeds exactly when a post with the id exists and the caller owns it; it then
      replaces that post's payload and nothing else, and otherwise changes nothing. */
  lemma UpdateEffect(posts: seq<Post>, userId: string, postId: string, updatedPost: Payload)
    requires DistinctBy(posts, IdOf)
    ensures var (ok, after) := UpdateOn(posts, userId, postId, updatedPost);
            (ok <==> exists i :: 0 <= i < |posts| && posts[i].postId == postId && posts[i].userId == userId) &&
            (!ok ==> after == posts) &&
            |after| == |posts| &&
            forall i :: 0 <= i < |posts| ==>
              after[i] == if ok && posts[i].postId == postId then posts[i].(post := updatedPost) else posts[i]
  {
    if exists i :: 0 <= i < |posts| && posts[i].postId == postId {
      var i :| 0 <= i < |posts| && posts[i].postId == postId;
      LocateDistinct(posts, postId, i);
      forall j | 0 <= j < |posts| && posts[j].postId == postId ensures j == i {
        LocateDistinct(posts, postId, j);
      }
    }
  }
}

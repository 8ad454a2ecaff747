/** The in-memory post store of models/posts_dummy.js: posts with up and down vote counters,
    one vote per user per post, sequential string ids, and a ranked "top posts" read. */
module VotingStore {
  import opened Common
  import opened Decimal
  import opened Ranking

  /** One recorded vote: who voted, and whether it was an up vote. */
  datatype Vote = Vote(userId: string, vote: bool)

  /** A stored post: its owner, id, payload, counters, creation time and the votes cast on it. */
  datatype Post = Post(userId: string, id: string, post: Payload, upVote: int, downVote: int,
                       creation: int, votes: seq<Vote>)

  /** What `getPost` hands back: the counters and the payload. */
  datatype ScoredPost = ScoredPost(upVote: int, downVote: int, post: Payload)

  const CouldNotGetPost: string := "Couldn't get post"
  const AlreadyVoted: string := "Already voted"

  /** `calcScore`: up votes minus down votes; on a tallied post, the number of up votes recorded
      minus the number of down votes recorded. */
  function CalcScore(p: Post): (r: int)
    ensures Tallied(p) ==> r == UpVotes(p.votes) - DownVotes(p.votes)
    ensures r > 0 <==> p.upVote > p.downVote
  {
    p.upVote - p.downVote
  }

  function RankKey(p: Post): Key
  {
    Key(CalcScore(p), p.creation)
  }

  function IdOf(p: Post): string
  {
    p.id
  }

  function VoterOf(v: Vote): string
  {
    v.userId
  }

  /** The index of the first post with the given id, as the linear search of `_getPost` finds it. */
  function Locate(posts: seq<Post>, postId: string): (r: Option<nat>)
    ensures r.Some? ==> r.value < |posts| && posts[r.value].id == postId
    ensures r.Some? ==> forall k :: 0 <= k < r.value ==> posts[k].id != postId
    ensures r.None? <==> forall k :: 0 <= k < |posts| ==> posts[k].id != postId
  {
    if posts == [] then None
    else if posts[0].id == postId then Some(0)
    else match Locate(posts[1..], postId)
      case None => None
      case Some(k) =>
        assert posts[1..][k] == posts[k + 1];
        Some(k + 1)
  }

  /** Replacing a post by one with the same id does not move where an id is found. */
  lemma LocateSameId(posts: seq<Post>, i: nat, p: Post, postId: string)
    requires i < |posts| && p.id == posts[i].id
    ensures Locate(posts[i := p], postId) == Locate(posts, postId)
  {
    var after := posts[i := p];
    assert forall k :: 0 <= k < |posts| ==> after[k].id == posts[k].id;
  }

  /** Whether the user appears among the voters. */
  predicate HasVoted(votes: seq<Vote>, userId: string)
  {
    exists k :: 0 <= k < |votes| && votes[k].userId == userId
  }

  /** The post after the user's vote is recorded. */
  function AddVote(p: Post, userId: string, vote: bool): (r: Post)
    ensures CalcScore(r) == CalcScore(p) + (if vote then 1 else -1)
    ensures r.votes == p.votes + [Vote(userId, vote)]
    ensures r.userId == p.userId && r.id == p.id && r.post == p.post && r.creation == p.creation
  {
    var q := p.(votes := p.votes + [Vote(userId, vote)]);
    if vote then q.(upVote := p.upVote + 1) else q.(downVote := p.downVote + 1)
  }

  /** The outcome of `votePost` on the posts table, and the table afterwards. */
  function VoteOn(posts: seq<Post>, userId: string, postId: string, vote: bool): (r: (Result<bool>, seq<Post>))
    ensures |r.1| == |posts|
    ensures r.0.Success? ==> r.0.value && Locate(posts, postId).Some?
    ensures r.0.Failure? ==> r.1 == posts && (r.0.error == CouldNotGetPost || r.0.error == AlreadyVoted)
  {
    match Locate(posts, postId)
    case None => (Failure(CouldNotGetPost), posts)
    case Some(i) =>
      if HasVoted(posts[i].votes, userId) then (Failure(AlreadyVoted), posts)
      else (Success(true), posts[i := AddVote(posts[i], userId, vote)])
  }

  /** The outcome of `updatePost` (true when the payload was replaced), and the table afterwards. */
  function UpdateOn(posts: seq<Post>, userId: string, postId: string, updatedPost: Payload): (r: (bool, seq<Post>))
    ensures |r.1| == |posts|
    ensures r.0 ==> Locate(posts, postId).Some? && posts[Locate(posts, postId).value].userId == userId
    ensures !r.0 ==> r.1 == posts
  {
    match Locate(posts, postId)
    case None => (false, posts)
    case Some(i) =>
      if posts[i].userId != userId then (false, posts)
      else (true, posts[i := posts[i].(post := updatedPost)])
  }

  /** The number of up votes among the votes. */
  function UpVotes(votes: seq<Vote>): nat
  {
    if votes == [] then 0 else UpVotes(votes[..|votes| - 1]) + (if votes[|votes| - 1].vote then 1 else 0)
  }

  /** The number of down votes among the votes. */
  function DownVotes(votes: seq<Vote>): nat
  {
    if votes == [] then 0 else DownVotes(votes[..|votes| - 1]) + (if votes[|votes| - 1].vote then 0 else 1)
  }

  /** A post's counters are the tallies of its votes, and no user voted on it twice. */
  ghost predicate Tallied(p: Post)
  {
    p.upVote == UpVotes(p.votes) && p.downVote == DownVotes(p.votes) && DistinctBy(p.votes, VoterOf)
  }

  /** The table invariant: the counter is positive, ids are distinct decimal renderings of counter
      values already used, and every post is tallied. */
  ghost predicate Wellformed(posts: seq<Post>, postID: nat)
  {
    postID >= 1 &&
    DistinctBy(posts, IdOf) &&
    (forall p :: p in posts ==> 0 <= ParseDecimal(p.id) < postID) &&
    (forall p :: p in posts ==> Tallied(p))
  }

  /** The posts created at or after the horizon: none is older than `pastHotline`. */
  predicate NoneExpired(posts: seq<Post>, pastHotline: int)
  {
    forall p :: p in posts ==> p.creation >= pastHotline
  }

  class PostsDummy {
    var posts: seq<Post>
    var postID: nat
    const topPostsLimit: nat
    const hotPostsDays: int
    const hotPostsPeriod: int

    ghost predicate Valid()
      reads this
    {
      Wellformed(posts, postID)
    }

    constructor (topPostsLimit: nat)
      ensures posts == [] && postID == 1
      ensures this.topPostsLimit == LimitOrDefault(topPostsLimit)
      ensures hotPostsDays == HotPostsDays && hotPostsPeriod == HotPostsPeriod
      ensures Valid()
    {
      posts := [];
      postID := 1;
      this.topPostsLimit := LimitOrDefault(topPostsLimit);
      hotPostsDays := HotPostsDays;
      hotPostsPeriod := HotPostsDays * (86400 * 1000);
    }

    /** `_getPost`: the linear search for the first post with the id. */
    method FindPost(postId: string) returns (r: Option<nat>)
      ensures r == Locate(posts, postId)
    {
      var i := 0;
      while i < |posts|
        invariant i <= |posts|
        invariant forall k :: 0 <= k < i ==> posts[k].id != postId
      {
        if posts[i].id == postId {
          return Some(i);
        }
        i := i + 1;
      }
      return None;
    }

    /** `createPost`: a fresh post with the next id, no votes, created at `now`. */
    method CreatePost(userId: string, newPost: Payload, now: int) returns (id: string)
      modifies this
      ensures id == NatToString(old(postID))
      ensures postID == old(postID) + 1
      ensures posts == old(posts) + [Post(userId, id, newPost, 0, 0, now, [])]
      ensures old(Valid()) ==> Valid() && forall p :: p in old(posts) ==> p.id != id
    {
      if Valid() {
        CreateKeepsWellformed(posts, postID, userId, newPost, now);
      }
      id := NatToString(postID);
      postID := postID + 1;
      posts := posts + [Post(userId, id, newPost, 0, 0, now, [])];
    }

    /** `updatePost`: the owner replaces the payload; otherwise nothing happens (false). */
    method UpdatePost(userId: string, postId: string, updatedPost: Payload) returns (ok: bool)
      modifies this
      ensures (ok, posts) == UpdateOn(old(posts), userId, postId, updatedPost)
      ensures postID == old(postID)
      ensures old(Valid()) ==> Valid()
    {
      if Valid() {
        UpdateKeepsWellformed(posts, postID, userId, postId, updatedPost);
      }
      var found := FindPost(postId);
      if found.None? || posts[found.value].userId != userId {
        return false;
      }
      var i := found.value;
      posts := posts[i := posts[i].(post := updatedPost)];
      return true;
    }

    /** `getPost`: the counters and payload of the post with the id, or an error. */
    method GetPost(postId: string) returns (r: Result<ScoredPost>)
      ensures r.Failure? <==> forall p :: p in posts ==> p.id != postId
      ensures r.Failure? ==> r.error == CouldNotGetPost
      ensures r.Success? ==> Locate(posts, postId).Some? &&
                             var p := posts[Locate(posts, postId).value];
                             r.value == ScoredPost(p.upVote, p.downVote, p.post)
    {
      var found := FindPost(postId);
      if found.None? {
        return Failure(CouldNotGetPost);
      }
      var p := posts[found.value];
      return Success(ScoredPost(p.upVote, p.downVote, p.post));
    }

    /** `votePost`: records the user's first vote on an existing post and bumps one counter. */
    method VotePost(userId: string, postId: string, vote: bool) returns (outcome: Result<bool>)
      modifies this
      ensures (outcome, posts) == VoteOn(old(posts), userId, postId, vote)
      ensures postID == old(postID)
      ensures old(Valid()) ==> Valid()
    {
      if Valid() {
        VoteKeepsWellformed(posts, postID, userId, postId, vote);
      }
      var found := FindPost(postId);
      if found.None? {
        return Failure(CouldNotGetPost);
      }
      var i := found.value;
      var post := posts[i];
      var k := 0;
      while k < |post.votes|
        invariant k <= |post.votes|
        invariant forall j :: 0 <= j < k ==> post.votes[j].userId != userId
      {
        if post.votes[k].userId == userId {
          return Failure(AlreadyVoted);
        }
        k := k + 1;
      }
      post := post.(votes := post.votes + [Vote(userId, vote)]);
      if vote {
        post := post.(upVote := post.upVote + 1);
      } else {
        post := post.(downVote := post.downVote + 1);
      }
      posts := posts[i := post];
      return Success(true);
    }

    /** `getTopPosts`: sorts the table in place by rank and returns its first `topPostsLimit` posts.
        The comparator is only a consistent order when no post is expired; then the table ends up
        in ranking order. In every case it is only reordered. */
    method GetTopPosts(now: int) returns (top: seq<Post>)
      modifies this
      ensures multiset(posts) == multiset(old(posts))
      ensures NoneExpired(old(posts), now - hotPostsPeriod) ==> SortedBy(posts, RankKey)
      ensures top == Truncate(posts, topPostsLimit) && |top| <= topPostsLimit
      ensures NoneExpired(old(posts), now - hotPostsPeriod) ==>
                MapSeq(top, RankKey) == MapSeq(Truncate(RankSort(old(posts), RankKey), topPostsLimit), RankKey)
      ensures NoneExpired(old(posts), now - hotPostsPeriod) && DistinctBy(old(posts), RankKey) ==>
                top == Truncate(RankSort(old(posts), RankKey), topPostsLimit)
      ensures postID == old(postID)
      ensures old(Valid()) ==> Valid()
    {
      var pastHotline := now - hotPostsPeriod;
      ghost var before := posts;
      RankSortCorrect(posts, RankKey);
      ghost var reference := RankSort(posts, RankKey);
      assert multiset(reference) == multiset(posts) && SortedBy(reference, RankKey);
      var sorted :| multiset(sorted) == multiset(posts) &&
                    (NoneExpired(posts, pastHotline) ==> SortedBy(sorted, RankKey));
      posts := sorted;
      top := Truncate(posts, topPostsLimit);
      if NoneExpired(before, pastHotline) {
        TopAgreesWithReference(before, posts, topPostsLimit, RankKey);
      }
      if Wellformed(before, postID) {
        PermutationKeepsWellformed(before, posts, postID);
      }
    }
  }

  // ---------------------------------------------------------------------------------------------
  // Properties of the table operations

  /** A created post gets an id no existing post has, and the table stays well formed. */
  lemma CreateKeepsWellformed(posts: seq<Post>, postID: nat, userId: string, newPost: Payload, now: int)
    requires Wellformed(posts, postID)
    ensures forall p :: p in posts ==> p.id != NatToString(postID)
    ensures Wellformed(posts + [Post(userId, NatToString(postID), newPost, 0, 0, now, [])], postID + 1)
  {
    var id := NatToString(postID);
    ParseOfNatToString(postID);
    var p := Post(userId, id, newPost, 0, 0, now, []);
    DistinctByAppend(posts, p, IdOf);
    assert Tallied(p);
  }

  /** Tallies of a vote list grown by one vote. */
  lemma TallyAppend(votes: seq<Vote>, v: Vote)
    ensures UpVotes(votes + [v]) == UpVotes(votes) + (if v.vote then 1 else 0)
    ensures DownVotes(votes + [v]) == DownVotes(votes) + (if v.vote then 0 else 1)
  {
    assert (votes + [v])[..|votes + [v]| - 1] == votes;
  }

  /** Recording a vote by a user who has not voted keeps the post tallied. */
  lemma AddVoteKeepsTallied(p: Post, userId: string, vote: bool)
    requires Tallied(p) && !HasVoted(p.votes, userId)
    ensures Tallied(AddVote(p, userId, vote))
  {
    TallyAppend(p.votes, Vote(userId, vote));
    forall y | y in p.votes ensures VoterOf(y) != VoterOf(Vote(userId, vote)) {
      var k :| 0 <= k < |p.votes| && p.votes[k] == y;
    }
    DistinctByAppend(p.votes, Vote(userId, vote), VoterOf);
  }

  /** Replacing the post at i by a tallied post with the same id keeps the table well formed. */
  lemma ReplaceKeepsWellformed(posts: seq<Post>, postID: nat, i: nat, q: Post)
    requires Wellformed(posts, postID)
    requires i < |posts| && q.id == posts[i].id && Tallied(q)
    ensures Wellformed(posts[i := q], postID)
  {
    var after := posts[i := q];
    forall a, b | 0 <= a < b < |after| ensures IdOf(after[a]) != IdOf(after[b]) {
      assert IdOf(after[a]) == IdOf(posts[a]) && IdOf(after[b]) == IdOf(posts[b]);
    }
    forall p | p in after ensures 0 <= ParseDecimal(p.id) < postID && Tallied(p) {
      var k :| 0 <= k < |after| && after[k] == p;
      if k != i {
        assert p == posts[k];
      }
    }
  }

  lemma VoteKeepsWellformed(posts: seq<Post>, postID: nat, userId: string, postId: string, vote: bool)
    requires Wellformed(posts, postID)
    ensures Wellformed(VoteOn(posts, userId, postId, vote).1, postID)
  {
    var r := Locate(posts, postId);
    if r.Some? && !HasVoted(posts[r.value].votes, userId) {
      var i := r.value;
      assert posts[i] in posts;
      AddVoteKeepsTallied(posts[i], userId, vote);
      ReplaceKeepsWellformed(posts, postID, i, AddVote(posts[i], userId, vote));
    }
  }

  lemma UpdateKeepsWellformed(posts: seq<Post>, postID: nat, userId: string, postId: string, updatedPost: Payload)
    requires Wellformed(posts, postID)
    ensures Wellformed(UpdateOn(posts, userId, postId, updatedPost).1, postID)
  {
    var r := Locate(posts, postId);
    if r.Some? && posts[r.value].userId == userId {
      var i := r.value;
      assert posts[i] in posts;
      ReplaceKeepsWellformed(posts, postID, i, posts[i].(post := updatedPost));
    }
  }

  /** Reordering the table keeps it well formed. */
  lemma PermutationKeepsWellformed(posts: seq<Post>, sorted: seq<Post>, postID: nat)
    requires Wellformed(posts, postID)
    requires multiset(sorted) == multiset(posts)
    ensures Wellformed(sorted, postID)
  {
    DistinctByPermutation(posts, sorted, IdOf);
    forall p | p in sorted ensures p in posts {
      assert p in multiset(sorted);
    }
  }

  /** With distinct ids, the post found for an id is the one holding it. */
  lemma LocateDistinct(posts: seq<Post>, postId: string, i: nat)
    requires DistinctBy(posts, IdOf)
    requires i < |posts| && posts[i].id == postId
    ensures Locate(posts, postId) == Some(i)
  {
  }

  /** Why a vote fails, and that a failed vote changes nothing: an unknown id gives
      "Couldn't get post", a user who already voted on the post gives "Already voted", and any
      other vote succeeds. */
  lemma VoteOutcome(posts: seq<Post>, userId: string, postId: string, vote: bool)
    requires DistinctBy(posts, IdOf)
    ensures var (res, after) := VoteOn(posts, userId, postId, vote);
            (res == Failure(CouldNotGetPost) <==> forall p :: p in posts ==> p.id != postId) &&
            (res == Failure(AlreadyVoted) <==>
               exists i :: 0 <= i < |posts| && posts[i].id == postId && HasVoted(posts[i].votes, userId)) &&
            (res.Failure? || res == Success(true)) &&
            (res.Failure? ==> after == posts)
  {
    var res := VoteOn(posts, userId, postId, vote).0;
    if exists i :: 0 <= i < |posts| && posts[i].id == postId {
      var i :| 0 <= i < |posts| && posts[i].id == postId;
      LocateDistinct(posts, postId, i);
      if res == Failure(AlreadyVoted) {
        assert HasVoted(posts[i].votes, userId);
      }
      if exists j :: 0 <= j < |posts| && posts[j].id == postId && HasVoted(posts[j].votes, userId) {
        var j :| 0 <= j < |posts| && posts[j].id == postId && HasVoted(posts[j].votes, userId);
        LocateDistinct(posts, postId, j);
      }
    } else {
      assert forall p :: p in posts ==> p.id != postId;
    }
  }

  /** A successful vote changes exactly the voted post: one more vote record, one counter up by one,
      its score moved by one; every other post is as it was. */
  lemma VoteEffect(posts: seq<Post>, userId: string, postId: string, vote: bool)
    requires DistinctBy(posts, IdOf)
    requires VoteOn(posts, userId, postId, vote).0.Success?
    ensures var after := VoteOn(posts, userId, postId, vote).1;
            |after| == |posts| &&
            forall i :: 0 <= i < |posts| ==>
              if posts[i].id == postId then
                after[i].votes == posts[i].votes + [Vote(userId, vote)] &&
                after[i].upVote == posts[i].upVote + (if vote then 1 else 0) &&
                after[i].downVote == posts[i].downVote + (if vote then 0 else 1) &&
                CalcScore(after[i]) == CalcScore(posts[i]) + (if vote then 1 else -1) &&
                after[i].post == posts[i].post && after[i].userId == posts[i].userId &&
                after[i].creation == posts[i].creation
              else after[i] == posts[i]
  {
    var i := Locate(posts, postId).value;
    forall j | 0 <= j < |posts| && posts[j].id == postId ensures j == i {
      LocateDistinct(posts, postId, j);
    }
  }

  /** Once a user's vote on a post succeeded, any further vote by that user on it fails with
      "Already voted" and changes nothing. */
  lemma RepeatVoteRejected(posts: seq<Post>, userId: string, postId: string, vote: bool, again: bool)
    requires VoteOn(posts, userId, postId, vote).0.Success?
    ensures var after := VoteOn(posts, userId, postId, vote).1;
            VoteOn(after, userId, postId, again) == (Failure(AlreadyVoted), after)
  {
    var i := Locate(posts, postId).value;
    var q := AddVote(posts[i], userId, vote);
    LocateSameId(posts, i, q, postId);
    assert q.votes[|q.votes| - 1].userId == userId;
  }

  /** Votes by a sequence of users on one post, one after the other, with their outcomes. */
  function VoteAll(posts: seq<Post>, voters: seq<string>, postId: string, vote: bool): (seq<Result<bool>>, seq<Post>)
    decreases |voters|
  {
    if voters == [] then ([], posts)
    else
      var (res, next) := VoteOn(posts, voters[0], postId, vote);
      var (rest, last) := VoteAll(next, voters[1..], postId, vote);
      ([res] + rest, last)
  }

  /** Votes on an existing post by distinct users none of whom voted on it before all succeed, and
      the post's counter moves by the number of voters. */
  lemma {:induction false} DistinctVotersSucceed(posts: seq<Post>, voters: seq<string>, postId: string, vote: bool)
    requires Locate(posts, postId).Some?
    requires forall a, b :: 0 <= a < b < |voters| ==> voters[a] != voters[b]
    requires forall u :: u in voters ==> !HasVoted(posts[Locate(posts, postId).value].votes, u)
    ensures var (results, last) := VoteAll(posts, voters, postId, vote);
            var i := Locate(posts, postId).value;
            |results| == |voters| && (forall k :: 0 <= k < |results| ==> results[k] == Success(true)) &&
            Locate(last, postId) == Some(i) && |last| == |posts| &&
            CalcScore(last[i]) == CalcScore(posts[i]) + (if vote then |voters| else -|voters|)
    decreases |voters|
  {
    if voters != [] {
      var i := Locate(posts, postId).value;
      var q := AddVote(posts[i], voters[0], vote);
      var next := posts[i := q];
      assert VoteOn(posts, voters[0], postId, vote) == (Success(true), next);
      LocateSameId(posts, i, q, postId);
      var tail := voters[1..];
      forall u | u in tail ensures !HasVoted(next[i].votes, u) {
        assert u != voters[0] && u in voters by {
          var b :| 0 <= b < |tail| && tail[b] == u;
          assert voters[b + 1] == u;
        }
        assert !HasVoted(posts[i].votes, u);
        forall k | 0 <= k < |q.votes| ensures q.votes[k].userId != u {
          if k < |posts[i].votes| {
            assert q.votes[k] == posts[i].votes[k];
          }
        }
      }
      assert forall a, b :: 0 <= a < b < |tail| ==> tail[a] != tail[b] by {
        forall a, b | 0 <= a < b < |tail| ensures tail[a] != tail[b] {
          assert tail[a] == voters[a + 1] && tail[b] == voters[b + 1];
        }
      }
      DistinctVotersSucceed(next, tail, postId, vote);
    }
  }

  /** An update succeeds exactly when a post with the id exists and the caller owns it; it then
      replaces that post's payload and nothing else, and otherwise changes nothing. */
  lemma UpdateEffect(posts: seq<Post>, userId: string, postId: string, updatedPost: Payload)
    requires DistinctBy(posts, IdOf)
    ensures var (ok, after) := UpdateOn(posts, userId, postId, updatedPost);
            (ok <==> exists i :: 0 <= i < |posts| && posts[i].id == postId && posts[i].userId == userId) &&
            (!ok ==> after == posts) &&
            |after| == |posts| &&
            forall i :: 0 <= i < |posts| ==>
              after[i] == if ok && posts[i].id == postId then posts[i].(post := updatedPost) else posts[i]
  {
    if exists i :: 0 <= i < |posts| && posts[i].id == postId {
      var i :| 0 <= i < |posts| && posts[i].id == postId;
      LocateDistinct(posts, postId, i);
      forall j | 0 <= j < |posts| && posts[j].id == postId ensures j == i {
        LocateDistinct(posts, postId, j);
      }
    }
  }
}

# Pendo posts: hot list and in-memory stores, modelled in Dafny

This project models the ranking core of the Pendo posts service. There are three parts.

- **The incremental Top-K hot list** of `models/posts.js` (module `HotPosts`). The `Posts` object
  keeps a bounded window `topPosts` of posts. The window is ranked by score (`upVote - downVote`),
  and equal scores are ranked by creation time, newest first. `handlePostUpdate` folds one change
  event `(postChange, isRemoved)` into the window in one bounded pass and then replaces the field
  wholesale. The pass:
  - drops any old copy of the changed post;
  - lazily evicts members created before `now - hotPostsPeriod`;
  - inserts the change where it first out-ranks a survivor;
  - stops at `topPostsLimit` members;
  - appends an unplaced change at the tail when there is room.

  The pass is the method `RebuildWindow`, with its loop and invariants. It is proved equal to the
  declarative `NextWindow`: the surviving old members, with the change inserted by rank unless it
  is removed, cut to the limit. The lemmas about `NextWindow` state:
  - the size bound;
  - eviction of expired members and of the stale copy;
  - absence of a removed change;
  - preserved relative order of old members;
  - exactly when the change enters;
  - preservation of ranking order and distinct ids;
  - idempotence of re-applying the same event;
  - that a removal of an absent id is a no-op;
  - the two tie cases.
- **The voting store** of `models/posts_dummy.js` (module `VotingStore`, class `PostsDummy`). It
  holds the following:
  - posts with `upVote`/`downVote` counters;
  - sequential string ids drawn from the `postID` counter;
  - one vote per user per post;
  - an owner-only payload update;
  - a `getTopPosts` that sorts the table in place and returns its first `topPostsLimit` posts.
- **The scoring store** of `controllers/posts_dummy.js` (module `ScoringStore`). It has the same
  shape, but each post has a single signed `score`, and a vote adds an arbitrary integer to it.

The shared modules are:
- `Common`: `Option`/`Result`, the payload, the `topPostsLimit || 5` fallback, `slice`-style
  truncation and distinctness;
- `Decimal`: the decimal rendering of the id counter, and its inverse;
- `Ranking`: the rank order, the "sorted by rank" predicate, and an independent reference sort.
  The stores' `getTopPosts` is checked against that sort, as the test suite does.

In each store, `FindPost` is proved equal to `Locate`, `VotePost` to `VoteOn` and `UpdatePost` to
`UpdateOn`, all functions on the posts table. `CreatePost` states its whole new table and counter
directly. `GetPost` states its error case, and otherwise returns the fields of the post `Locate` finds.
`GetTopPosts` states that the table is only permuted, and it is compared with the reference sort
`RankSort`. The lemmas beside these methods state:
- the error cases, and that each leaves the table unchanged;
- the exact effect of a successful call, and that nothing else changes;
- that a repeat vote is refused;
- that votes by distinct users all succeed;
- that the table invariant holds. The invariant says that ids are distinct and fresh, that
  counters equal the tallies of the recorded votes, and that voters are distinct.

Expiry follows the code: a post is expired when `creation < now - hotPostsPeriod` (strict), so a
post exactly at the horizon is kept. models/posts.js checks only this lower bound; a creation time
later than `now` is not checked, and the model does not check it either.

## Model

| member | source | states |
|---|---|---|
| Common.LimitOrDefault | models/posts.js:33 | a limit of 0 becomes 5 and any other limit is kept, so the effective limit is at least 1 |
| Decimal.ParseOfNatToString | models/posts_dummy.js:72 | the decimal id rendered from the counter reads back as the counter value |
| Decimal.NatToStringInjective | models/posts_dummy.js:72 | distinct counter values give distinct id strings |
| Ranking.RankSortCorrect | test/postsCtrl.js:249-262 | the reference sort returns a permutation of its input in rank order (score desc, then creation desc) |
| Ranking.SortedPermutationsAgree | models/posts_dummy.js:169-184 | any two rank-sorted permutations of the same posts have the same rank key at every position |
| Ranking.SortedPermutationUnique | models/posts_dummy.js:169-184 | when no two posts share a rank key, the rank-sorted permutation is unique |
| Ranking.TopAgreesWithReference | test/postsCtrl.js:244-268 | the first n posts of any rank-sorted permutation agree key by key with the first n of the reference sort, and post by post when keys are distinct |
| HotPosts.CalcScore | models/posts.js:78-80 | the score is positive exactly when up votes outnumber down votes, and zero exactly when they balance |
| HotPosts.OutRanks | models/posts.js:126-128 | the change goes in front of a member exactly when that member may not stand before it in the shared rank order |
| HotPosts.Survivors | models/posts.js:109-113 | the skip rule never yields more members than the old window had |
| HotPosts.InsertRanked | models/posts.js:123-134 | the placement yields one more element than it was given, and the change is among them |
| HotPosts.SurvivorsMembers | models/posts.js:109-113 | the old members carried over are exactly those with a different id that are not expired |
| HotPosts.InsertRankedMembers | models/posts.js:123-134 | placing the change adds exactly one copy of it and loses no survivor |
| HotPosts.NextWindow | models/posts.js:106 | the next window never has more than `topPostsLimit` entries |
| HotPosts.PendingIsInsertion | models/posts.js:106-145 | the loop's step-by-step output equals the survivors with the change inserted by rank, unless it was already placed |
| HotPosts.ScanStep | models/posts.js:109-139 | each loop step skips a dropped member, emits a kept member, or emits the change in front of the first member it out-ranks |
| HotPosts.ScanFinished | models/posts.js:106-145 | when the loop stops because it is full or out of members, its output plus the tail append is the next window |
| HotPosts.RebuildWindow | models/posts.js:87-145 | the bounded pass (skip, evict, place, stop at the limit, tail append) builds exactly `NextWindow` of the old window |
| HotPosts.Posts.constructor | models/posts.js:27-44 | the window starts empty, the limit falls back to 5, the period is 10 days in milliseconds |
| HotPosts.Posts.HandlePostUpdate | models/posts.js:87-148 | the field is replaced by the next window. That window is within the limit and has no expired member. It has no member with a removed change's id. It is sorted with distinct ids when the old one was |
| HotPosts.PublishedWindow | models/posts.js:87-148 | the published window has no expired member, no member with a removed change's id, and is sorted with distinct ids when the old window was |
| HotPosts.Posts.GetTopPosts | models/posts.js:288-290 | returns the published window as it is |
| HotPosts.WindowMembers | models/posts.js:91-121 | every member of the new window is the (not removed) change, or an old member with another id that is not expired |
| HotPosts.RemovedChangeAbsent | models/posts.js:91-143 | a change flagged removed, or itself expired, is not in the new window, and nor is any expired post |
| HotPosts.SurvivorOrderKept | models/posts.js:106-145 | with the change's id dropped, the new window is a prefix of the surviving old members in their old order |
| HotPosts.InsertRankedEnters | models/posts.js:123-145 | the change is in the cut insertion exactly when the limit is positive and either there is room or it out-ranks one of the first `limit` survivors |
| HotPosts.ChangeEntersWindow | models/posts.js:123-145 | a change that is not removed enters the window exactly when there is room among the survivors or it out-ranks one of the first `limit` of them |
| HotPosts.SurvivorsSorted | models/posts.js:109-113 | filtering a rank-sorted, duplicate-free window keeps it rank-sorted and duplicate-free |
| HotPosts.InsertRankedSorted | models/posts.js:123-134 | placing a change with a new id into a rank-sorted, duplicate-free list keeps it so |
| HotPosts.NextWindowKeepsOrder | models/posts.js:123-134 | if the old window is rank-sorted with distinct ids, so is the new one |
| HotPosts.SurvivorsAllKept | models/posts.js:109-113 | a window none of whose members is dropped survives unchanged |
| HotPosts.ReinsertIdempotent | models/posts.js:106-145 | re-placing the same change into the window that already holds it gives the same window |
| HotPosts.FoldIdempotent | models/posts.js:87-148 | folding the same change twice at the same time gives the window of folding it once |
| HotPosts.AbsentRemovalKeepsWindow | models/posts.js:106-147 | a removal of an id not in a within-limit window with no expired member leaves the window unchanged |
| HotPosts.NewerTieDisplacesSoleMember | models/posts.js:123-130 | with limit 1, a change of equal score and strictly newer creation displaces the sole member |
| HotPosts.ExactTieStaysBehind | models/posts.js:123-145 | a change tied on score and creation goes after the member: limit 2 gives [member, change], limit 1 gives [member] |
| VotingStore.Locate | models/posts_dummy.js:52-60 | finds the first post with the id, or reports that no post has it |
| VotingStore.LocateSameId | models/posts_dummy.js:52-60 | replacing a post by one with the same id does not change where any id is found |
| VotingStore.LocateDistinct | models/posts_dummy.js:52-60 | with distinct ids, the post found for an id is the one holding it |
| VotingStore.CalcScore | models/posts_dummy.js:157-159 | on a tallied post the score is the number of up votes recorded minus the number of down votes; it is positive exactly when up votes outnumber down votes |
| VotingStore.VoteOn | models/posts_dummy.js:131-155 | the table keeps its length; a success reports true for an existing post; a failure is one of the two errors and leaves the table unchanged |
| VotingStore.UpdateOn | models/posts_dummy.js:93-101 | the table keeps its length; true only for an existing post owned by the caller; false leaves the table unchanged |
| VotingStore.AddVote | models/posts_dummy.js:147-152 | recording a vote appends it and moves the score by +1 for an up vote, -1 for a down vote, leaving owner, id, payload and creation alone |
| VotingStore.PostsDummy.constructor | models/posts_dummy.js:20-29 | empty table, counter 1, limit fallback 5, 10-day period |
| VotingStore.PostsDummy.FindPost | models/posts_dummy.js:52-60 | the linear search returns the index `Locate` specifies |
| VotingStore.PostsDummy.CreatePost | models/posts_dummy.js:69-83 | appends a post with id = old counter as a string, zero counters, no votes and creation `now`; the counter grows by 1; the id is new; the invariant is kept |
| VotingStore.PostsDummy.UpdatePost | models/posts_dummy.js:93-101 | behaves as `UpdateOn` on the table; the counter is unchanged and the invariant is kept |
| VotingStore.PostsDummy.GetPost | models/posts_dummy.js:109-121 | fails with "Couldn't get post" exactly when no post has the id, and otherwise returns the counters and payload of the first post with that id, the one `Locate` finds |
| VotingStore.PostsDummy.VotePost | models/posts_dummy.js:131-155 | the lookup, voter scan and update behave as `VoteOn` on the table; the invariant is kept |
| VotingStore.PostsDummy.GetTopPosts | models/posts_dummy.js:165-188 | the table is only permuted; the result is its first `topPostsLimit` posts. When no post is expired, the table ends rank-sorted. The result then agrees key by key with the reference sort, and post by post when keys are distinct |
| VotingStore.CreateKeepsWellformed | models/posts_dummy.js:69-82 | the new id differs from every existing id, and the table invariant holds after the append |
| VotingStore.TallyAppend | models/posts_dummy.js:147-152 | one more up (down) vote raises the up (down) tally by one |
| VotingStore.AddVoteKeepsTallied | models/posts_dummy.js:139-152 | recording a first vote of a user keeps counters equal to tallies and voters distinct |
| VotingStore.ReplaceKeepsWellformed | models/posts_dummy.js:147-152 | replacing one post in place by a tallied one with the same id keeps the invariant |
| VotingStore.VoteKeepsWellformed | models/posts_dummy.js:131-155 | voting keeps the table invariant |
| VotingStore.UpdateKeepsWellformed | models/posts_dummy.js:93-101 | updating keeps the table invariant |
| VotingStore.PermutationKeepsWellformed | models/posts_dummy.js:169-184 | reordering the table keeps the invariant |
| VotingStore.VoteOutcome | models/posts_dummy.js:132-145 | "Couldn't get post" exactly when no post has the id, "Already voted" exactly when the post's votes hold the user, success otherwise; failures change nothing |
| VotingStore.VoteEffect | models/posts_dummy.js:147-154 | a successful vote appends one record and raises exactly one counter of the voted post, moving its score by ±1. Every other post is unchanged |
| VotingStore.RepeatVoteRejected | models/posts_dummy.js:139-145 | after a user's successful vote on a post, any further vote by them on it fails with "Already voted" and changes nothing |
| VotingStore.DistinctVotersSucceed | test/postsCtrl.js:170-196 | votes by distinct first-time users on an existing post all succeed, and the score moves by the number of voters |
| VotingStore.UpdateEffect | models/posts_dummy.js:93-101 | an update succeeds exactly when a post with the id exists and the caller owns it. It then replaces only that post's payload; otherwise nothing changes |
| ScoringStore.Locate | controllers/posts_dummy.js:51-59 | finds the first post with the `postId`, or reports that none has it |
| ScoringStore.LocateSameId | controllers/posts_dummy.js:51-59 | replacing a post by one with the same id does not change where any id is found |
| ScoringStore.LocateDistinct | controllers/posts_dummy.js:51-59 | with distinct ids, the post found for an id is the one holding it |
| ScoringStore.VoteOn | controllers/posts_dummy.js:129-148 | the table keeps its length; a success reports true for an existing post; a failure is one of the two errors and leaves the table unchanged |
| ScoringStore.UpdateOn | controllers/posts_dummy.js:91-99 | the table keeps its length; true only for an existing post owned by the caller; false leaves the table unchanged |
| ScoringStore.AddVote | controllers/posts_dummy.js:145-146 | recording a vote appends `{userId, score}` and adds exactly `score` to the post's score |
| ScoringStore.PostsDummy.constructor | controllers/posts_dummy.js:19-28 | empty table, counter 1, limit fallback 5, 10-day period |
| ScoringStore.PostsDummy.FindPost | controllers/posts_dummy.js:51-59 | the linear search returns the index `Locate` specifies |
| ScoringStore.PostsDummy.CreatePost | controllers/posts_dummy.js:68-81 | appends a post with `postId` = old counter as a string, score 0, no votes and creation `now`; the counter grows by 1; the id is new; the invariant is kept |
| ScoringStore.PostsDummy.UpdatePost | controllers/posts_dummy.js:91-99 | behaves as `UpdateOn`; the counter is unchanged and the invariant is kept |
| ScoringStore.PostsDummy.GetPost | controllers/posts_dummy.js:107-118 | fails with "Couldn't get post" exactly when no post has the id, and otherwise returns the score and payload of the first post with that id, the one `Locate` finds |
| ScoringStore.PostsDummy.VotePost | controllers/posts_dummy.js:129-148 | the lookup, voter scan and update behave as `VoteOn`; the invariant is kept |
| ScoringStore.PostsDummy.GetTopPosts | controllers/posts_dummy.js:155-178 | the table is only permuted; the result is its first `topPostsLimit` posts. When no post is expired, it equals the test's independent sort truncated to the limit: on score and creation, or post by post when keys are distinct |
| ScoringStore.CreateKeepsWellformed | controllers/posts_dummy.js:68-81 | the new id differs from every existing id, and the table invariant holds after the append |
| ScoringStore.TallyAppend | controllers/posts_dummy.js:145-146 | one more vote adds its score to the sum of vote scores |
| ScoringStore.AddVoteKeepsTallied | controllers/posts_dummy.js:137-146 | recording a first vote of a user keeps the score equal to the sum of vote scores and voters distinct |
| ScoringStore.ReplaceKeepsWellformed | controllers/posts_dummy.js:145-146 | replacing one post in place by a tallied one with the same id keeps the invariant |
| ScoringStore.VoteKeepsWellformed | controllers/posts_dummy.js:129-148 | voting keeps the table invariant, so a post's score is always the sum of its recorded vote scores |
| ScoringStore.UpdateKeepsWellformed | controllers/posts_dummy.js:91-99 | updating keeps the table invariant |
| ScoringStore.PermutationKeepsWellformed | controllers/posts_dummy.js:159-174 | reordering the table keeps the invariant |
| ScoringStore.VoteOutcome | controllers/posts_dummy.js:130-143 | "Couldn't get post" exactly when no post has the id, "Already voted" exactly when the post's votes hold the user, success otherwise; failures change nothing |
| ScoringStore.VoteEffect | controllers/posts_dummy.js:145-147 | a successful vote appends one record and adds exactly the given (possibly negative) score to the voted post. Every other post is unchanged |
| ScoringStore.RepeatVoteRejected | controllers/posts_dummy.js:136-143 | after a user's successful vote on a post, any further vote by them on it fails with "Already voted" and changes nothing |
| ScoringStore.DistinctVotersSucceed | test/postsCtrl.js:170-196 | ballots by distinct first-time users on an existing post all succeed, and the score grows by the sum of their scores |
| ScoringStore.SumScoresCons | controllers/posts_dummy.js:145-146 | the sum of vote scores is the first score plus the sum of the rest |
| ScoringStore.UpdateEffect | controllers/posts_dummy.js:91-99 | an update succeeds exactly when a post with the id exists and the caller owns it. It then replaces only that post's payload; otherwise nothing changes |

## Left out

- HotPosts.Survivors: its own contract states only the length bound, to keep the proofs that unfold it cheap. Which members survive is stated by `HotPosts.SurvivorsMembers`.
- The RethinkDB-backed operations of `models/posts.js` are foreign database calls and change-feed cursors. Left out: `init`, `createPost`, `updatePost`, `getPost`, `votePost`, `listen2TopPosts`, `currentTopPosts` and `clean`. The stores' `init` and `clean` do nothing and are left out too.
- Bootstrap of the window from the database is not modelled. The window starts empty, and any sorted, duplicate-free window can be supplied to the lemmas.
- HotPosts.Posts.constructor: takes only the limit. The database host, port and name are not modelled.
- `Date.now()` is a parameter `now` of `handlePostUpdate`, `createPost` and `getTopPosts`.
- The callbacks are return values. `updatePost` never calls its callback on failure; that path is modelled as the result `false` with no change.
- VotingStore.PostsDummy.GetTopPosts: states no order when a post is expired. There the comparator is not a consistent order (an expired `a` always compares first), so the result depends on the engine's sort.
- ScoringStore.PostsDummy.GetTopPosts: states no order when a post is expired, for the same reason.
- The stores' sort is any permutation sorted by rank. The stability of the JavaScript sort is not modelled, so posts with equal score and creation may come in any order.
- Posts are values, and `_getPost` returns an index instead of a shared object reference. Aliasing of post objects between the table and its callers is not modelled.
- `getTopPosts` hands out the stored post objects themselves, and later votes would be visible through them. The model returns copies.
- `createPost` also writes `creation` into the caller's payload object. This side effect on the argument is not modelled.
- The hot-list entries hold only the fields the fold reads: `postId`, `upVote`, `downVote` and `creation`.
- Ids and user ids are strings compared exactly. JavaScript's loose `==` in `_getPost`, and numeric user ids as the tests pass them, are not modelled.
- A vote's `vote` flag is a boolean. The truthiness of other JavaScript values is not modelled.
- Integers are unbounded. JavaScript number precision is not modelled.
- Concurrency and the asynchronous change feed are not modelled. Each call is one atomic sequential step.

# Twitter feed store and skip iterator, in Dafny

This project models the two data structures of `Main.java`.

**`Twitter`** is an in-memory social-feed store (module `Feed`, file `feed.dfy`).
- The class `Feed.Twitter` holds a map from user id to `User` and the tweet counter `timestamp`.
- A `User` is a value: the set of ids it follows and its tweets, newest first, at most ten of them.
- `postTweet`, `follow` and `unfollow` are methods that replace the user values in the map. Each is proved equal to a pure store transformer (`PostIn`, `FollowIn`, `UnfollowIn`), and each keeps the store invariant. The invariant says every tweet list is capped at ten, strictly newest first, and older than the counter, and that no two tweets share a time.
- `getNewsFeed` is modelled as the source runs it.
  - A loop fills the heap with every tweet of every followed user that exists.
  - A second loop polls the newest tweet until the heap is empty or ten ids are taken.
  - The result is proved equal to the ids of `Top` of the collected tweets. `Top` is specified by the ordering `NewestFirst`. `IsTop` states what the feed promises: as many tweets as there are, up to ten; only candidate tweets; strictly newest first; and no candidate left out is newer than one shown.

**`SkipIterator`** is a one-element-lookahead iterator that drops values marked for skipping (module `SkipIter`, file `skip_iterator.dfy`).
- The wrapped iterator is the sequence `source` with the cursor `pos`.
- `nextElement` is `staged` (an `Option`), and `skipCount` is a map to natural numbers.
- The abstraction `Pending()` is the sequence of values that `next()` will yield from now on if `skip` is not called again: the staged value, then `Filter` of the rest of the source under the current counts.
- Every method states its effect on `Pending()`. `advanceToNext` also states its effect on the concrete fields through `AdvancedFrom` and `Drawn`: the cursor only moves forward, each value passed over had a positive count that went down by one, and the value staged is the first one whose count was zero.
- The demonstration driver's call sequence is proved to yield 2, 3, 6, 5, 7, -1, 10 and then to fail.

## Model

| member | source | states |
|---|---|---|
| Feed.NewUser | Main.java:25-30 | a new user follows only itself and has no tweets |
| Feed.User.Follow | Main.java:32-34 | the followed set becomes the old one with `userId` added, and nothing else changes |
| Feed.User.Unfollow | Main.java:36-38 | the followed set becomes the old one with exactly `userId` removed (the user's own id included), and nothing else changes |
| Feed.User.Post | Main.java:40-45 | the new tweet heads the list; the list grows by one unless it already held ten; the rest is a prefix of the old list (the oldest is dropped at the cap); `followed` is unchanged |
| Feed.PostIn | Main.java:54-64 | after `postTweet` the user exists (created with `followed = {userId}` when absent); its list is headed by the tweet stamped with the current counter, followed by the old list, which loses its last (oldest) entry only when it already held ten, so the length grows by one below the cap and stays at ten there; no other user changes and no other key appears |
| Feed.PostRetained | Main.java:40-45 | posting with the current counter keeps a list capped at ten, strictly newest first and older than the counter, with the counter moved on by one |
| Feed.PostKeepsInvariant | Main.java:40-45 | posting keeps the store invariant (caps, order, times below the counter, no time shared by two users) with the counter increased by one |
| Feed.PostTimesUnique | Main.java:41 | the new tweet's time is newer than every stored one, so after a post no two users share a time |
| Feed.Twitter.constructor | Main.java:50-52 | a new store has no users, its counter starts at 0, and it meets the invariant |
| Feed.Twitter.PostTweet | Main.java:54-64 | the store becomes `PostIn` of the old store and counter; the counter goes up by exactly one; the invariant is kept |
| Feed.FollowIn | Main.java:92-109 | after `follow(a, b)` both users exist, `b` is in `followed(a)`, the keys are the old keys plus `a` and `b`, `a`'s tweets are unchanged, and every other user is unchanged or freshly created |
| Feed.FollowKeepsInvariant | Main.java:92-109 | following keeps the store invariant |
| Feed.FollowIdempotent | Main.java:92-109 | following twice is the same as following once |
| Feed.Twitter.Follow | Main.java:92-109 | the store becomes `FollowIn` of the old store; the counter and the invariant are kept |
| Feed.UnfollowIn | Main.java:111-115 | the keys and all other users are unchanged; `a` keeps its tweets; exactly `b` leaves `followed(a)` when both users exist (also when `a == b`), and nothing changes otherwise |
| Feed.UnfollowKeepsInvariant | Main.java:111-115 | unfollowing keeps the store invariant |
| Feed.FollowUnfollowInverse | Main.java:32-38 | between existing users, `unfollow(a, b)` undoes a `follow(a, b)` that added `b` |
| Feed.Twitter.Unfollow | Main.java:111-115 | the store becomes `UnfollowIn` of the old store; the counter and the invariant are kept |
| Feed.Twitter.CollectTweets | Main.java:72-81 | the heap filled by visiting the followed ids in any order holds exactly the tweets of the followed users that exist |
| Feed.AddAll | Main.java:77-79 | adding a user's tweets one by one adds exactly the tweets of that list |
| Feed.PollNewest | Main.java:85-86 | `poll` on the max-heap returns a tweet of the heap that no other tweet is newer than, and removes exactly that tweet |
| Feed.DrainNewest | Main.java:83-89 | polling until the heap is empty or ten ids are taken gives the ids of the ten newest tweets, newest first |
| Feed.CollectedDistinct | Main.java:40-45 | under the store invariant, the tweets of any group of users have pairwise distinct times, so a set of them orders like the heap |
| Feed.CollectedBefore | Main.java:40-45 | every stored tweet is older than the counter |
| Feed.TweetSetSize | Main.java:40-45 | a list stored under the invariant holds no tweet twice, so its set of tweets is as large as the list |
| Feed.CollectedDisjoint | Main.java:74-81 | under the invariant a user shares no tweet with any group of other users |
| Feed.CollectedSize | Main.java:72-81 | under the invariant the set of collected tweets is exactly as large as the number of adds the heap gets, the followed users' list lengths summed; no tweet is added twice |
| Feed.NewestFirstPermutes | Main.java:83-89 | the drain order lists every heap tweet exactly once |
| Feed.NewestFirstDescending | Main.java:71 | with distinct times the drain order is strictly decreasing in time |
| Feed.TopIsTop | Main.java:83-89 | the first ten of the drain order meet the feed promise `IsTop` |
| Feed.Twitter.GetNewsFeed | Main.java:66-90 | the result is the ids of `FeedTweets`: empty for an unknown user, otherwise the top ten of the followed users' tweets; the store is not modified |
| Feed.FeedIsTop | Main.java:66-90 | an unknown user's feed is empty; a known user's feed has min(10, number of tweets the followed users that exist hold) tweets, all candidates, strictly newest first, none left out newer than one shown |
| Feed.NewPostHeadsFeed | Main.java:54-90 | right after a post, the tweet heads the feed of every user who follows its author (the author included) |
| SkipIter.Filter | Main.java:160-175 | the values yielded under given counts are never more than the values drawn |
| SkipIter.FilterCounts | Main.java:163-173 | of each value, the yield drops as many occurrences as its count allows and keeps the rest: min(count, occurrences) go, the others stay |
| SkipIter.FilterWithoutSkips | Main.java:160-175 | with no outstanding skips the iterator yields the source exactly, in order |
| SkipIter.FilterExtraSkip | Main.java:151 | one more outstanding skip of `v` removes exactly the next `v` that would otherwise be yielded |
| SkipIter.RemoveFirstTakesOne | Main.java:144-149 | removing the next `v` takes away one occurrence of `v`, if any, and nothing else |
| SkipIter.ConsumedStep | Main.java:167-168 | dropping a value with a positive count extends the record of drops by that value and uses up one of its counts |
| SkipIter.DrawStep | Main.java:163-173 | one draw drops a value with a positive count and decrements it, or stages the value otherwise; what is left to yield is unchanged |
| SkipIter.Draw | Main.java:163-174 | the loop ends with every drawn-and-dropped value having had a positive count that went down by one, with the first value of count zero or none staged, or with the source exhausted and nothing staged; what is left to yield is what the starting cursor and counts gave |
| SkipIter.SkipIterator.Pending | Main.java:130-132 | something is left to yield exactly when a value is staged, and the staged value comes first |
| SkipIter.SkipIterator.constructor | Main.java:124-128 | a new iterator has no skips; it has advanced to the first value, or to the end; it yields the whole source |
| SkipIter.SkipIterator.HasNext | Main.java:130-132 | true exactly when a value is staged, that is, when something is left to yield |
| SkipIter.SkipIterator.Next | Main.java:134-142 | with nothing staged it fails with `NoSuchElement` and changes nothing; otherwise it returns the staged value, re-advances from the cursor, and what is left to yield loses its head |
| SkipIter.SkipIterator.AdvanceToNext | Main.java:160-175 | the cursor only moves forward and stays within the source; each value passed over had a positive count, which went down by one; the first value with count zero or none is staged, or nothing when the source runs out; the values left to yield are those the old cursor and counts gave |
| SkipIter.SkipIterator.Skip | Main.java:150-158 | as written: the count of `val` goes up by one and no other count changes; a staged `val` is also discarded and the iterator re-advances with the raised count, so two occurrences of `val` leave what is left to yield |
| SkipIter.SkipIterator.SkipOnce | Main.java:144-149 | corrected: each call removes exactly the next `val` from what is left to yield |
| SkipIter.DemoRemovals | Main.java:190-197 | the three `skip(5)` calls of the demonstration each remove the next 5 |
| SkipIter.DemoScenario | Main.java:182-209 | on 2, 3, 5, 6, 5, 7, 5, -1, 5, 10 the demonstration's calls yield 2, 3, 6, 5, 7, -1, 10; `hasNext()` is then false and `next()` fails |
| SkipIter.SkipOfStagedValue | Main.java:150-158 | on 5, 5, 1 a `skip(5)` issued while 5 is staged makes the next value 1 as written and 5 with `SkipOnce` |

## Left out

- Console output and the `try`/`catch` of `main` (Main.java:179-211) are left out. The scenario is the method `DemoScenario`, and the exception is the outcome `NoSuchElement`.
- `PriorityQueue`, `HashMap` and `HashSet` internals are left out. The heap is a set of tweets and `poll` is a maximum search. The set is equivalent to the queue because stored tweets have distinct times (`CollectedDistinct`) and no tweet is added twice (`CollectedSize`). The iteration order of `followed` is arbitrary in the model; the result does not depend on it.
- Feed.PollNewest: the comparator `b.time - a.time` (Main.java:71) is compared without 32-bit overflow. Times start at 0 and grow by one per tweet, so overflow would need more than 2^31 tweets.
- Feed.Twitter.PostTweet: `timestamp` is unbounded, so its 32-bit wrap-around after 2^31 tweets is not modelled.
- The `static` counter (Main.java:5) is shared by all `Twitter` instances in Java. Here each store owns its counter, so interleaved use of several stores is not modelled.
- The Java `User.id` field is left out. The map key is the user's id.
- The wrapped `Iterator<Integer>` is a finite sequence. Lazy or infinite sources are left out, and so are `null` elements, which the Java code cannot tell apart from exhaustion.
- SkipIter.SkipIterator.Skip: the skip count is an unbounded natural number, so the overflow of `Integer` after 2^31 calls is not modelled.
- SkipIter.Filter: its own contract only bounds the length of the yield; the exact per-value counts are stated by `FilterCounts`, and the order by `FilterWithoutSkips` and `FilterExtraSkip`.
- Concurrency is left out; the source has none.

## Findings

| source | as written | input that shows it | evidently intended | confidence | as-written member | corrected member |
|---|---|---|---|---|---|---|
| Main.java:150-158 | `skip(val)` raises the count of `val` and, if `val` is staged, also discards the staged value without using up that count, so one call removes two occurrences of `val` | source 5, 5, 1; call `skip(5)`; `next()` returns 1 | each call skips one occurrence of `val` (Main.java:144-149), so `next()` returns the second 5 | not executed | SkipIter.SkipIterator.Skip, SkipIter.SkipOfStagedValue | SkipIter.SkipIterator.SkipOnce |

/** The in-memory social feed ("Twitter"): users post tweets, follow and
    unfollow one another, and read a news feed of the newest tweets of the
    users they follow.

    A store maps each user id to a `User` value; the Java `User` objects
    that the store updates in place are replaced here by new values put
    back into the map. */
module Feed {

  /** How many tweets a user keeps: posting an eleventh drops the oldest. */
  const MaxTweets := 10
  /** How many tweets a news feed returns at most. */
  const FeedSize := 10

  /** A tweet: the caller's id and the store's order key `time`. */
  datatype Tweet = Tweet(id: int, time: int)

  /** A user: the ids they follow and their tweets, newest first. The Java
      class also stores the user's own id, which here is the map key. */
  datatype User = User(followed: set<int>, tweets: seq<Tweet>) {

    /** Adds `userId` to the followed set; a second add changes nothing. */
    function Follow(userId: int): (u: User)
      ensures forall v :: v in u.followed <==> v in followed || v == userId
      ensures u.tweets == tweets
    {
      User(followed + {userId}, tweets)
    }

    /** Removes `userId` from the followed set, the user's own id included. */
    function Unfollow(userId: int): (u: User)
      ensures forall v :: v in u.followed <==> v in followed && v != userId
      ensures u.tweets == tweets
    {
      User(followed - {userId}, tweets)
    }

    /** Puts the new tweet in front and, when that makes more than
        MaxTweets, drops the last (oldest) one. */
    function Post(tweetId: int, time: int): (u: User)
      ensures u.followed == followed
      ensures |u.tweets| == if |tweets| < MaxTweets then |tweets| + 1 else |tweets|
      ensures u.tweets != [] && u.tweets[0] == Tweet(tweetId, time)
      ensures u.tweets[1..] <= tweets
    {
      var ts := [Tweet(tweetId, time)] + tweets;
      User(followed, if |ts| > MaxTweets then ts[..|ts| - 1] else ts)
    }
  }

  /** A new user follows only themselves and has no tweets. */
  function NewUser(id: int): (u: User)
    ensures id in u.followed && forall v :: v in u.followed ==> v == id
    ensures |u.tweets| == 0
  {
    User({id}, [])
  }

  /** The user `id` of the store, or the one the store would create for it. */
  function GetOrCreate(users: map<int, User>, id: int): User {
    if id in users then users[id] else NewUser(id)
  }

  function Min(a: int, b: int): int {
    if a <= b then a else b
  }

  /** One user's tweet list as the store keeps it when `now` is the next
      time to hand out: at most MaxTweets tweets, times strictly decreasing
      from front to back, every time already handed out. */
  ghost predicate Retained(tweets: seq<Tweet>, now: int) {
    && |tweets| <= MaxTweets
    && (forall i, j :: 0 <= i < j < |tweets| ==> tweets[j].time < tweets[i].time)
    && (forall i :: 0 <= i < |tweets| ==> tweets[i].time < now)
  }

  /** Tweets of two different users never share a time. */
  ghost predicate TimesUnique(users: map<int, User>) {
    forall a, b, i, j ::
      a in users && b in users && a != b && 0 <= i < |users[a].tweets| && 0 <= j < |users[b].tweets| ==>
        users[a].tweets[i].time != users[b].tweets[j].time
  }

  /** The invariant of a store whose next tweet gets the time `now`. */
  ghost predicate StoreInvariant(users: map<int, User>, now: int) {
    && (forall u :: u in users ==> Retained(users[u].tweets, now))
    && TimesUnique(users)
  }

  /** Posting with the next time keeps a retained list retained. */
  lemma PostRetained(user: User, tweetId: int, now: int)
    requires Retained(user.tweets, now)
    ensures Retained(user.Post(tweetId, now).tweets, now + 1)
  {
    var ts := user.Post(tweetId, now).tweets;
    forall i, j | 0 <= i < j < |ts| ensures ts[j].time < ts[i].time {
      assert ts[j] == user.tweets[j - 1];
      if i > 0 {
        assert ts[i] == user.tweets[i - 1];
      }
    }
  }

  /** The store after `postTweet(userId, tweetId)` with the counter at `now`. */
  function PostIn(users: map<int, User>, now: int, userId: int, tweetId: int): (r: map<int, User>)
    ensures r.Keys == users.Keys + {userId}
    ensures r[userId].followed == GetOrCreate(users, userId).followed
    ensures r[userId].tweets != [] && r[userId].tweets[0] == Tweet(tweetId, now)
    ensures r[userId].tweets[1..] <= GetOrCreate(users, userId).tweets
    ensures var n := |GetOrCreate(users, userId).tweets|;
      |r[userId].tweets| == if n < MaxTweets then n + 1 else n
    ensures forall u :: u in users && u != userId ==> r[u] == users[u]
  {
    users[userId := GetOrCreate(users, userId).Post(tweetId, now)]
  }

  /** The store after `follow(followerId, followeeId)`. */
  function FollowIn(users: map<int, User>, followerId: int, followeeId: int): (r: map<int, User>)
    ensures followerId in r && followeeId in r && followeeId in r[followerId].followed
    ensures r.Keys == users.Keys + {followerId, followeeId}
    ensures r[followerId].followed == GetOrCreate(users, followerId).followed + {followeeId}
    ensures r[followerId].tweets == GetOrCreate(users, followerId).tweets
    ensures forall u :: u in r && u != followerId ==> r[u] == GetOrCreate(users, u)
  {
    var withFollower := if followerId in users then users else users[followerId := NewUser(followerId)];
    var withBoth := if followeeId in withFollower then withFollower else withFollower[followeeId := NewUser(followeeId)];
    withBoth[followerId := withBoth[followerId].Follow(followeeId)]
  }

  /** The store after `unfollow(followerId, followeeId)`. */
  function UnfollowIn(users: map<int, User>, followerId: int, followeeId: int): (r: map<int, User>)
    ensures r.Keys == users.Keys
    ensures forall u :: u in users && u != followerId ==> r[u] == users[u]
    ensures followerId in users ==>
      && r[followerId].tweets == users[followerId].tweets
      && r[followerId].followed ==
           if followeeId in users then users[followerId].followed - {followeeId} else users[followerId].followed
  {
    if followerId in users && followeeId in users then
      users[followerId := users[followerId].Unfollow(followeeId)]
    else
      users
  }

  /** Posting keeps the store invariant, with the counter moved on by one. */
  lemma PostKeepsInvariant(users: map<int, User>, now: int, userId: int, tweetId: int)
    requires StoreInvariant(users, now)
    ensures StoreInvariant(PostIn(users, now, userId, tweetId), now + 1)
  {
    var r := PostIn(users, now, userId, tweetId);
    PostRetained(GetOrCreate(users, userId), tweetId, now);
    forall u | u in r ensures Retained(r[u].tweets, now + 1) {
      if u != userId {
        assert Retained(users[u].tweets, now);
      }
    }
    PostTimesUnique(users, now, userId, tweetId);
  }

  /** The new tweet's time is newer than every stored one, so posting gives
      no two users a shared time. */
  lemma PostTimesUnique(users: map<int, User>, now: int, userId: int, tweetId: int)
    requires StoreInvariant(users, now)
    ensures TimesUnique(PostIn(users, now, userId, tweetId))
  {
    var r := PostIn(users, now, userId, tweetId);
    var before := GetOrCreate(users, userId);
    forall a, b, i, j |
      a in r && b in r && a != b && 0 <= i < |r[a].tweets| && 0 <= j < |r[b].tweets|
      ensures r[a].tweets[i].time != r[b].tweets[j].time
    {
      if a == userId {
        assert Retained(users[b].tweets, now);
        if i > 0 {
          assert r[a].tweets[i] == before.tweets[i - 1];
        }
      } else if b == userId {
        assert Retained(users[a].tweets, now);
        if j > 0 {
          assert r[b].tweets[j] == before.tweets[j - 1];
        }
      }
    }
  }

  /** A change that leaves every user's tweets as they were (a user it
      creates has none) keeps the store invariant. */
  lemma SameTweetsKeepInvariant(users: map<int, User>, r: map<int, User>, now: int)
    requires StoreInvariant(users, now)
    requires forall u :: u in r ==> r[u].tweets == GetOrCreate(users, u).tweets
    ensures StoreInvariant(r, now)
  {
    forall u | u in r ensures Retained(r[u].tweets, now) {
      if u in users {
        assert Retained(users[u].tweets, now);
      }
    }
  }

  lemma FollowKeepsInvariant(users: map<int, User>, now: int, followerId: int, followeeId: int)
    requires StoreInvariant(users, now)
    ensures StoreInvariant(FollowIn(users, followerId, followeeId), now)
  {
    SameTweetsKeepInvariant(users, FollowIn(users, followerId, followeeId), now);
  }

  lemma UnfollowKeepsInvariant(users: map<int, User>, now: int, followerId: int, followeeId: int)
    requires StoreInvariant(users, now)
    ensures StoreInvariant(UnfollowIn(users, followerId, followeeId), now)
  {
    SameTweetsKeepInvariant(users, UnfollowIn(users, followerId, followeeId), now);
  }

  /** Following twice is following once. */
  lemma FollowIdempotent(users: map<int, User>, followerId: int, followeeId: int)
    ensures FollowIn(FollowIn(users, followerId, followeeId), followerId, followeeId)
         == FollowIn(users, followerId, followeeId)
  {
    var once := FollowIn(users, followerId, followeeId);
    var twice := FollowIn(once, followerId, followeeId);
    assert twice[followerId] == once[followerId];
  }

  /** Between existing users, unfollowing undoes a follow that added someone new. */
  lemma FollowUnfollowInverse(users: map<int, User>, followerId: int, followeeId: int)
    requires followerId in users && followeeId in users
    requires followeeId !in users[followerId].followed
    ensures UnfollowIn(FollowIn(users, followerId, followeeId), followerId, followeeId) == users
  {
    var r := UnfollowIn(FollowIn(users, followerId, followeeId), followerId, followeeId);
    assert r[followerId] == users[followerId];
  }

  // ---------------------------------------------------------------------------
  // The news feed

  /** The tweets of the users in `ids` that have a record in the store. */
  ghost function Collected(users: map<int, User>, ids: set<int>): set<Tweet> {
    set u, t | u in ids && u in users && t in users[u].tweets :: t
  }

  ghost function TweetSet(ts: seq<Tweet>): set<Tweet> {
    set t | t in ts
  }

  ghost predicate DistinctTimes(s: set<Tweet>) {
    forall x, y :: x in s && y in s && x.time == y.time ==> x == y
  }

  lemma CollectedAdd(users: map<int, User>, ids: set<int>, id: int)
    ensures Collected(users, ids + {id})
         == Collected(users, ids) + if id in users then TweetSet(users[id].tweets) else {}
  {
  }

  /** Under the store invariant the tweets of any group of users have distinct times. */
  lemma CollectedDistinct(users: map<int, User>, now: int, ids: set<int>)
    requires StoreInvariant(users, now)
    ensures DistinctTimes(Collected(users, ids))
  {
    var s := Collected(users, ids);
    forall x, y | x in s && y in s && x.time == y.time ensures x == y {
      var a, i :| a in users && 0 <= i < |users[a].tweets| && users[a].tweets[i] == x;
      var b, j :| b in users && 0 <= j < |users[b].tweets| && users[b].tweets[j] == y;
      assert Retained(users[a].tweets, now);
      if a == b && i != j {
        assert false;
      }
    }
  }

  /** How many tweets the users in `ids` that have a record in the store hold
      together: the number of times `getNewsFeed` adds to its heap. */
  ghost function TotalTweets(users: map<int, User>, ids: set<int>): nat
    decreases ids
  {
    if ids == {} then 0
    else
      assert exists x :: x in ids by {
        if forall x :: x !in ids {
          assert false;
        }
      }
      var u :| u in ids;
      (if u in users then |users[u].tweets| else 0) + TotalTweets(users, ids - {u})
  }

  /** A list with strictly decreasing times holds no tweet twice. */
  lemma {:induction false} TweetSetSize(ts: seq<Tweet>, now: int)
    requires Retained(ts, now)
    ensures |TweetSet(ts)| == |ts|
  {
    if ts != [] {
      TweetSetSize(ts[1..], now);
      assert TweetSet(ts) == {ts[0]} + TweetSet(ts[1..]);
      assert ts[0] !in TweetSet(ts[1..]) by {
        forall k | 0 <= k < |ts[1..]| ensures ts[1..][k] != ts[0] {
          assert ts[1..][k] == ts[k + 1];
        }
      }
    }
  }

  /** Under the store invariant a user shares no tweet with other users. */
  lemma CollectedDisjoint(users: map<int, User>, now: int, ids: set<int>, u: int)
    requires StoreInvariant(users, now) && u in users && u !in ids
    ensures Collected(users, ids) * TweetSet(users[u].tweets) == {}
  {
    forall t | t in Collected(users, ids) ensures t !in TweetSet(users[u].tweets) {
      var a, i :| a in ids && a in users && 0 <= i < |users[a].tweets| && users[a].tweets[i] == t;
      forall j | 0 <= j < |users[u].tweets| ensures users[u].tweets[j] != t {
        assert users[u].tweets[j].time != users[a].tweets[i].time;
      }
    }
  }

  /** Under the store invariant no tweet is gathered twice: the set of
      collected tweets has exactly as many members as the heap gets adds. */
  lemma {:induction false} CollectedSize(users: map<int, User>, now: int, ids: set<int>)
    requires StoreInvariant(users, now)
    ensures |Collected(users, ids)| == TotalTweets(users, ids)
    decreases ids
  {
    if ids != {} {
      assert exists x :: x in ids by {
        if forall x :: x !in ids {
          assert false;
        }
      }
      var u :| u in ids && TotalTweets(users, ids) ==
        (if u in users then |users[u].tweets| else 0) + TotalTweets(users, ids - {u});
      CollectedSize(users, now, ids - {u});
      if u in users {
        TweetSetSize(users[u].tweets, now);
        CollectedDisjoint(users, now, ids - {u}, u);
      }
      CollectedSizeStep(users, ids, u);
    }
  }

  /** Gathering one more user adds that user's tweets to the count, when
      they are all distinct and new. */
  lemma CollectedSizeStep(users: map<int, User>, ids: set<int>, u: int)
    requires u in ids
    requires u in users ==>
      && |TweetSet(users[u].tweets)| == |users[u].tweets|
      && Collected(users, ids - {u}) * TweetSet(users[u].tweets) == {}
    ensures |Collected(users, ids)| ==
      |Collected(users, ids - {u})| + if u in users then |users[u].tweets| else 0
  {
    var rest := ids - {u};
    assert ids == rest + {u};
    CollectedAdd(users, rest, u);
    var others := Collected(users, rest);
    if u in users {
      var mine := TweetSet(users[u].tweets);
      assert |others * mine| == 0;
    }
  }

  /** No tweet of `s` is newer than `t`. */
  ghost predicate NewestIn(t: Tweet, s: set<Tweet>) {
    forall u :: u in s ==> u.time <= t.time
  }

  lemma NewestExists(s: set<Tweet>)
    requires s != {}
    ensures exists t :: t in s && NewestIn(t, s)
  {
    var x :| x in s;
    if s == {x} {
      assert NewestIn(x, s);
    } else {
      var s' := s - {x};
      NewestExists(s');
      var y :| y in s' && NewestIn(y, s');
      if x.time > y.time {
        assert NewestIn(x, s);
      } else {
        assert NewestIn(y, s);
      }
    }
  }

  /** A tweet of `s` that no other tweet of `s` is newer than. */
  ghost function Newest(s: set<Tweet>): (t: Tweet)
    requires s != {}
    ensures t in s && forall u :: u in s ==> u.time <= t.time
  {
    NewestExists(s);
    var t :| t in s && NewestIn(t, s);
    t
  }

  /** The tweets of `s` in the order a max-heap on `time` gives them up. */
  ghost function NewestFirst(s: set<Tweet>): seq<Tweet>
    decreases |s|
  {
    if s == {} then []
    else
      var t := Newest(s);
      [t] + NewestFirst(s - {t})
  }

  /** The first FeedSize tweets of `s`, newest first. */
  ghost function Top(s: set<Tweet>): seq<Tweet> {
    var all := NewestFirst(s);
    all[..Min(FeedSize, |all|)]
  }

  /** The tweets the news feed of `userId` shows. */
  ghost function FeedTweets(users: map<int, User>, userId: int): seq<Tweet> {
    if userId in users then Top(Collected(users, users[userId].followed)) else []
  }

  function Ids(ts: seq<Tweet>): seq<int> {
    seq(|ts|, i requires 0 <= i < |ts| => ts[i].id)
  }

  /** What a news feed promises about the tweets `r` it shows out of the
      candidates `s`: as many as there are, up to `k`; only candidates;
      strictly newest first; and no candidate left out is newer than any
      shown. */
  ghost predicate IsTop(r: seq<Tweet>, s: set<Tweet>, k: nat) {
    && |r| == Min(k, |s|)
    && (forall i :: 0 <= i < |r| ==> r[i] in s)
    && (forall i, j :: 0 <= i < j < |r| ==> r[j].time < r[i].time)
    && (forall t, i :: t in s && t !in r && 0 <= i < |r| ==> t.time < r[i].time)
  }

  /** NewestFirst lists every tweet of `s` exactly once. */
  lemma {:induction false} NewestFirstPermutes(s: set<Tweet>)
    ensures |NewestFirst(s)| == |s|
    ensures forall i :: 0 <= i < |NewestFirst(s)| ==> NewestFirst(s)[i] in s
    ensures forall t :: t in s ==> t in NewestFirst(s)
    decreases |s|
  {
    if s != {} {
      var t := Newest(s);
      NewestFirstPermutes(s - {t});
    }
  }

  /** With distinct times, NewestFirst is strictly decreasing in time. */
  lemma {:induction false} NewestFirstDescending(s: set<Tweet>)
    requires DistinctTimes(s)
    ensures forall i, j :: 0 <= i < j < |NewestFirst(s)| ==> NewestFirst(s)[j].time < NewestFirst(s)[i].time
    decreases |s|
  {
    if s != {} {
      var t := Newest(s);
      var rest := NewestFirst(s - {t});
      NewestFirstDescending(s - {t});
      NewestFirstPermutes(s - {t});
      var r := NewestFirst(s);
      forall i, j | 0 <= i < j < |r| ensures r[j].time < r[i].time {
        assert r[j] == rest[j - 1];
        if i == 0 {
          assert r[j] in s && r[j] != t;
        } else {
          assert r[i] == rest[i - 1];
        }
      }
    }
  }

  /** Polling the newest tweet of `s` gives the head of NewestFirst(s). */
  lemma NewestFirstStep(s: set<Tweet>, t: Tweet)
    requires DistinctTimes(s) && t in s
    requires forall u :: u in s ==> u.time <= t.time
    ensures NewestFirst(s) == [t] + NewestFirst(s - {t})
    ensures |s - {t}| == |s| - 1
  {
    var n := Newest(s);
    assert n.time == t.time;
  }

  /** The newest tweet of `s` heads Top(s). */
  lemma TopHead(s: set<Tweet>, t: Tweet)
    requires DistinctTimes(s) && t in s && NewestIn(t, s)
    ensures Top(s) != [] && Top(s)[0] == t
  {
    NewestFirstStep(s, t);
  }

  /** Top meets the news feed's promise. */
  lemma TopIsTop(s: set<Tweet>)
    requires DistinctTimes(s)
    ensures IsTop(Top(s), s, FeedSize)
  {
    var all := NewestFirst(s);
    var r := Top(s);
    NewestFirstPermutes(s);
    NewestFirstDescending(s);
    forall t, i | t in s && t !in r && 0 <= i < |r| ensures t.time < r[i].time {
      var k :| 0 <= k < |all| && all[k] == t;
      assert r[i] == all[i];
    }
  }

  /** The news feed of an unknown user is empty; that of a known user is the
      top FeedSize of the tweets of the users they follow that exist. */
  lemma FeedIsTop(users: map<int, User>, now: int, userId: int)
    requires StoreInvariant(users, now)
    ensures userId !in users ==> FeedTweets(users, userId) == []
    ensures userId in users ==> IsTop(FeedTweets(users, userId), Collected(users, users[userId].followed), FeedSize)
    ensures userId in users ==>
      |FeedTweets(users, userId)| == Min(FeedSize, TotalTweets(users, users[userId].followed))
  {
    if userId in users {
      CollectedSize(users, now, users[userId].followed);
      CollectedDistinct(users, now, users[userId].followed);
      TopIsTop(Collected(users, users[userId].followed));
    }
  }

  /** Every tweet in the store is older than the next time to hand out. */
  lemma CollectedBefore(users: map<int, User>, now: int, ids: set<int>)
    requires StoreInvariant(users, now)
    ensures forall t :: t in Collected(users, ids) ==> t.time < now
  {
    forall t | t in Collected(users, ids) ensures t.time < now {
      var a, i :| a in users && 0 <= i < |users[a].tweets| && users[a].tweets[i] == t;
      assert Retained(users[a].tweets, now);
    }
  }

  /** A tweet just posted heads the feed of every user who follows its author. */
  lemma NewPostHeadsFeed(users: map<int, User>, now: int, userId: int, tweetId: int, reader: int)
    requires StoreInvariant(users, now)
    requires reader in PostIn(users, now, userId, tweetId)
    requires userId in PostIn(users, now, userId, tweetId)[reader].followed
    ensures FeedTweets(PostIn(users, now, userId, tweetId), reader) != []
    ensures FeedTweets(PostIn(users, now, userId, tweetId), reader)[0] == Tweet(tweetId, now)
  {
    var r := PostIn(users, now, userId, tweetId);
    PostKeepsInvariant(users, now, userId, tweetId);
    var s := Collected(r, r[reader].followed);
    var t := Tweet(tweetId, now);
    assert t in r[userId].tweets;
    assert t in s;
    CollectedDistinct(r, now + 1, r[reader].followed);
    CollectedBefore(r, now + 1, r[reader].followed);
    TopHead(s, t);
    assert FeedTweets(r, reader) == Top(s);
  }

  /** `PriorityQueue.poll` on the max-heap: removes and returns a newest tweet. */
  method PollNewest(heap: set<Tweet>) returns (t: Tweet, rest: set<Tweet>)
    requires heap != {}
    ensures t in heap && rest == heap - {t}
    ensures forall u :: u in heap ==> u.time <= t.time
  {
    t :| t in heap;
    var unseen := heap - {t};
    while unseen != {}
      invariant unseen <= heap && t in heap
      invariant forall u :: u in heap && u !in unseen ==> u.time <= t.time
      decreases |unseen|
    {
      var u :| u in unseen;
      if u.time > t.time {
        t := u;
      }
      unseen := unseen - {u};
    }
    rest := heap - {t};
  }

  lemma IdsAppend(ts: seq<Tweet>, t: Tweet)
    ensures Ids(ts + [t]) == Ids(ts) + [t.id]
  {
  }

  /** Taking the newest tweet of what is left extends the taken prefix of NewestFirst. */
  lemma DrainStep(heap: set<Tweet>, taken: seq<Tweet>, left: set<Tweet>, t: Tweet)
    requires taken + NewestFirst(left) == NewestFirst(heap)
    requires DistinctTimes(left) && t in left && NewestIn(t, left)
    ensures (taken + [t]) + NewestFirst(left - {t}) == NewestFirst(heap)
    ensures |left - {t}| == |left| - 1
    ensures DistinctTimes(left - {t})
  {
    NewestFirstStep(left, t);
  }

  /** When the drain stops, what it took is Top. */
  lemma DrainDone(heap: set<Tweet>, taken: seq<Tweet>, left: set<Tweet>)
    requires taken + NewestFirst(left) == NewestFirst(heap)
    requires |NewestFirst(heap)| == |heap| && |taken| + |left| == |heap|
    requires |taken| <= FeedSize && (left == {} || |taken| == FeedSize)
    ensures taken == Top(heap)
  {
    if left != {} {
      assert taken == NewestFirst(heap)[..|taken|];
    }
  }

  /** The inner loop of the heap filling: adds each tweet of `tweets`. */
  method AddAll(heap: set<Tweet>, tweets: seq<Tweet>) returns (heap': set<Tweet>)
    ensures heap' == heap + TweetSet(tweets)
  {
    heap' := heap;
    var i := 0;
    while i < |tweets|
      invariant 0 <= i <= |tweets|
      invariant heap' == heap + TweetSet(tweets[..i])
    {
      assert tweets[..i + 1] == tweets[..i] + [tweets[i]];
      heap' := heap' + {tweets[i]};
      i := i + 1;
    }
    assert tweets[..i] == tweets;
  }

  /** The draining loop of `getNewsFeed`: polls the max-heap until it is
      empty or FeedSize ids are taken. */
  method DrainNewest(heap: set<Tweet>) returns (feed: seq<int>)
    requires DistinctTimes(heap)
    ensures feed == Ids(Top(heap))
  {
    NewestFirstPermutes(heap);
    var left := heap;
    feed := [];
    var count := 0;
    ghost var taken: seq<Tweet> := [];
    while left != {} && count < FeedSize
      invariant DistinctTimes(left)
      invariant count <= FeedSize
      invariant count == |taken| && feed == Ids(taken)
      invariant taken + NewestFirst(left) == NewestFirst(heap)
      invariant count + |left| == |heap|
      decreases |left|
    {
      ghost var before := left;
      var t;
      t, left := PollNewest(left);
      DrainStep(heap, taken, before, t);
      IdsAppend(taken, t);
      taken := taken + [t];
      feed := feed + [t.id];
      count := count + 1;
    }
    DrainDone(heap, taken, left);
  }

  class Twitter {
    var users: map<int, User>
    /** The time the next tweet gets. Java declares this counter `static`,
        so all Twitter instances share one; here each store owns it. */
    var timestamp: int

    ghost predicate Valid()
      reads this
    {
      StoreInvariant(users, timestamp)
    }

    constructor ()
      ensures Valid() && users == map[] && timestamp == 0
    {
      users := map[];
      timestamp := 0;
    }

    method PostTweet(userId: int, tweetId: int)
      requires Valid()
      modifies this
      ensures Valid()
      ensures users == PostIn(old(users), old(timestamp), userId, tweetId)
      ensures timestamp == old(timestamp) + 1
    {
      PostKeepsInvariant(users, timestamp, userId, tweetId);
      ghost var target := PostIn(users, timestamp, userId, tweetId);
      ghost var created := GetOrCreate(users, userId);
      var user: User;
      if userId in users {
        user := users[userId];
      } else {
        user := NewUser(userId);
        users := users[userId := user];
      }
      assert user == created;
      user := user.Post(tweetId, timestamp);
      timestamp := timestamp + 1;
      users := users[userId := user];
      assert users == target;
    }

    method Follow(followerId: int, followeeId: int)
      requires Valid()
      modifies this
      ensures Valid() && timestamp == old(timestamp)
      ensures users == FollowIn(old(users), followerId, followeeId)
    {
      FollowKeepsInvariant(users, timestamp, followerId, followeeId);
      if followerId !in users {
        users := users[followerId := NewUser(followerId)];
      }
      if followeeId !in users {
        users := users[followeeId := NewUser(followeeId)];
      }
      users := users[followerId := users[followerId].Follow(followeeId)];
    }

    method Unfollow(followerId: int, followeeId: int)
      requires Valid()
      modifies this
      ensures Valid() && timestamp == old(timestamp)
      ensures users == UnfollowIn(old(users), followerId, followeeId)
    {
      UnfollowKeepsInvariant(users, timestamp, followerId, followeeId);
      if followerId in users && followeeId in users {
        users := users[followerId := users[followerId].Unfollow(followeeId)];
      }
    }

    method GetNewsFeed(userId: int) returns (feed: seq<int>)
      requires Valid()
      ensures feed == Ids(FeedTweets(users, userId))
    {
      if userId !in users {
        return [];
      }
      var followedUsers := users[userId].followed;
      var heap := CollectTweets(followedUsers);
      CollectedDistinct(users, timestamp, followedUsers);
      feed := DrainNewest(heap);
    }

    /** The heap-filling loop of `getNewsFeed`: every tweet of every user in
        `followedUsers` that exists, visited in any order. */
    method CollectTweets(followedUsers: set<int>) returns (heap: set<Tweet>)
      ensures heap == Collected(users, followedUsers)
    {
      heap := {};
      var rest := followedUsers;
      ghost var done: set<int> := {};
      while rest != {}
        invariant done + rest == followedUsers
        invariant done !! rest
        invariant heap == Collected(users, done)
        decreases |rest|
      {
        assert exists x :: x in rest by {
          if forall x :: x !in rest {
            assert false;
          }
        }
        var followedId :| followedId in rest;
        CollectedAdd(users, done, followedId);
        if followedId in users {
          heap := AddAll(heap, users[followedId].tweets);
        }
        done := done + {followedId};
        rest := rest - {followedId};
      }
    }
  }
}

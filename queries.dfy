/**
 What the controllers' SQL asks of the store: point lookups by primary key,
 `WHERE <foreign key> = id` scans, the correlated `SELECT COUNT(*)` literals and the
 `SELECT EXISTS(...)` literal, each computed from the rows of one snapshot.
 */
module Queries {
  import opened Common
  import opened Entities

  /** Rows of a table whose column `key` equals `id`, in table order. */
  function FilterWhere<T(!new)>(rows: seq<T>, key: T -> Id, id: Id): (r: seq<T>)
    ensures |r| == CountWhere(rows, key, id)
    ensures forall x :: multiset(r)[x] == if key(x) == id then multiset(rows)[x] else 0
    ensures forall x :: x in r <==> x in rows && key(x) == id
  {
    if rows == [] then []
    else
      assert rows == [rows[0]] + rows[1..];
      var rest := FilterWhere(rows[1..], key, id);
      if key(rows[0]) == id then [rows[0]] + rest else rest
  }

  /** `SELECT COUNT(*) FROM <table> WHERE <key> = id`. */
  function CountWhere<T>(rows: seq<T>, key: T -> Id, id: Id): (n: nat)
    ensures n <= |rows|
  {
    if rows == [] then 0
    else (if key(rows[0]) == id then 1 else 0) + CountWhere(rows[1..], key, id)
  }

  /** The values of column `key`, row by row. */
  function Column<T>(rows: seq<T>, key: T -> Id): (c: seq<Id>)
    ensures |c| == |rows| && forall i :: 0 <= i < |rows| ==> c[i] == key(rows[i])
  {
    seq(|rows|, i requires 0 <= i < |rows| => key(rows[i]))
  }

  /** A COUNT(*) over a foreign key is the multiplicity of the id in that column. */
  lemma {:induction false} CountWhereIsMultiplicity<T>(rows: seq<T>, key: T -> Id, id: Id)
    ensures CountWhere(rows, key, id) == multiset(Column(rows, key))[id]
  {
    if rows != [] {
      CountWhereIsMultiplicity(rows[1..], key, id);
      assert Column(rows, key) == [key(rows[0])] + Column(rows[1..], key);
    }
  }

  /** Rows added to a table add their own matches to every count. */
  lemma {:induction false} CountWhereAppend<T>(a: seq<T>, b: seq<T>, key: T -> Id, id: Id)
    ensures CountWhere(a + b, key, id) == CountWhere(a, key, id) + CountWhere(b, key, id)
  {
    if a == [] {
      assert a + b == b;
    } else {
      assert (a + b)[0] == a[0] && (a + b)[1..] == a[1..] + b;
      CountWhereAppend(a[1..], b, key, id);
    }
  }

  /** No matching row yields 0, never an error; a count is positive iff some row matches. */
  lemma {:induction false} CountWherePositive<T>(rows: seq<T>, key: T -> Id, id: Id)
    ensures CountWhere(rows, key, id) > 0 <==> exists i :: 0 <= i < |rows| && key(rows[i]) == id
  {
    if rows != [] {
      CountWherePositive(rows[1..], key, id);
      if key(rows[0]) != id {
        assert forall i :: 1 <= i < |rows| ==> rows[i] == rows[1..][i - 1];
      }
    }
  }

  // Foreign-key columns, as functions the generic scans take.
  function TweetAuthor(t: Tweet): (k: Id) { t.UserId }
  function ReplyAuthor(r: Reply): (k: Id) { r.UserId }
  function ReplyTweet(r: Reply): (k: Id) { r.TweetId }
  function LikeUser(l: Like): (k: Id) { l.UserId }
  function LikeTweet(l: Like): (k: Id) { l.TweetId }
  function Follower(f: Followship): (k: Id) { f.followerId }
  function Followed(f: Followship): (k: Id) { f.followingId }

  /** `Tweets WHERE Tweets.UserId = u`. */
  function TweetsNum(s: Store, u: Id): (n: nat) { CountWhere(s.tweets, TweetAuthor, u) }

  /** `Replies WHERE TweetId = t`. */
  function RepliesNum(s: Store, t: Id): (n: nat) { CountWhere(s.replies, ReplyTweet, t) }

  /** `Likes WHERE TweetId = t`. */
  function LikesNum(s: Store, t: Id): (n: nat) { CountWhere(s.likes, LikeTweet, t) }

  /** `Followships WHERE followerId = u`: the users u follows. */
  function FollowingsNum(s: Store, u: Id): (n: nat) { CountWhere(s.followships, Follower, u) }

  /** `Followships WHERE followingId = u`: the users who follow u. */
  function FollowersNum(s: Store, u: Id): (n: nat) { CountWhere(s.followships, Followed, u) }

  /** Each named count is the multiplicity of the id in its foreign-key column. */
  lemma CountsAreMultiplicities(s: Store)
    ensures forall u :: TweetsNum(s, u) == multiset(Column(s.tweets, TweetAuthor))[u]
    ensures forall t :: RepliesNum(s, t) == multiset(Column(s.replies, ReplyTweet))[t]
    ensures forall t :: LikesNum(s, t) == multiset(Column(s.likes, LikeTweet))[t]
    ensures forall u :: FollowingsNum(s, u) == multiset(Column(s.followships, Follower))[u]
    ensures forall u :: FollowersNum(s, u) == multiset(Column(s.followships, Followed))[u]
  {
    forall u ensures TweetsNum(s, u) == multiset(Column(s.tweets, TweetAuthor))[u] {
      CountWhereIsMultiplicity(s.tweets, TweetAuthor, u);
    }
    forall t ensures RepliesNum(s, t) == multiset(Column(s.replies, ReplyTweet))[t] {
      CountWhereIsMultiplicity(s.replies, ReplyTweet, t);
    }
    forall t ensures LikesNum(s, t) == multiset(Column(s.likes, LikeTweet))[t] {
      CountWhereIsMultiplicity(s.likes, LikeTweet, t);
    }
    forall u ensures FollowingsNum(s, u) == multiset(Column(s.followships, Follower))[u] {
      CountWhereIsMultiplicity(s.followships, Follower, u);
    }
    forall u ensures FollowersNum(s, u) == multiset(Column(s.followships, Followed))[u] {
      CountWhereIsMultiplicity(s.followships, Followed, u);
    }
  }

  /** Some Like row records viewer `v` liking tweet `t`. */
  predicate LikedBy(likes: seq<Like>, t: Id, v: Id) {
    exists i :: 0 <= i < |likes| && likes[i].TweetId == t && likes[i].UserId == v
  }

  /** `SELECT EXISTS(SELECT * FROM Likes WHERE TweetId = t and UserId = v)`: 1 or 0. */
  function LikedFlag(likes: seq<Like>, t: Id, v: Id): (flag: int)
    ensures flag == 0 || flag == 1
    ensures flag == 1 <==> LikedBy(likes, t, v)
  {
    if likes == [] then 0
    else if likes[0].TweetId == t && likes[0].UserId == v then 1
    else
      var flag := LikedFlag(likes[1..], t, v);
      assert LikedBy(likes, t, v) ==> LikedBy(likes[1..], t, v) by {
        if LikedBy(likes, t, v) {
          var i :| 0 <= i < |likes| && likes[i].TweetId == t && likes[i].UserId == v;
          assert likes[1..][i - 1] == likes[i];
        }
      }
      assert LikedBy(likes[1..], t, v) ==> LikedBy(likes, t, v) by {
        if LikedBy(likes[1..], t, v) {
          var i :| 0 <= i < |likes| - 1 && likes[1..][i].TweetId == t && likes[1..][i].UserId == v;
          assert likes[i + 1] == likes[1..][i];
        }
      }
      flag
  }

  /** Rows of `Tweets` that join one Like row on `Likes.TweetId = Tweets.id` and pass
      `WHERE Tweets.UserId = u`. */
  function JoinedTweets(tweets: seq<Tweet>, tweetId: Id, u: Id): (n: nat) {
    if tweets == [] then 0
    else (if tweets[0].id == tweetId && tweets[0].UserId == u then 1 else 0) + JoinedTweets(tweets[1..], tweetId, u)
  }

  /** `SELECT COUNT(*) FROM Likes JOIN Tweets on Likes.TweetId = Tweets.id
      WHERE Tweets.UserId = u`: the join yields one row per (like, tweet) pair. */
  function LikesJoinCount(likes: seq<Like>, tweets: seq<Tweet>, u: Id): (n: nat) {
    if likes == [] then 0
    else JoinedTweets(tweets, likes[0].TweetId, u) + LikesJoinCount(likes[1..], tweets, u)
  }

  function LikesReceived(s: Store, u: Id): (n: nat) { LikesJoinCount(s.likes, s.tweets, u) }

  /** Reference definition of the likes a user received: over the tweets u wrote,
      the sum of each tweet's own like count. */
  function LikesOnTweetsOf(tweets: seq<Tweet>, likes: seq<Like>, u: Id): (n: nat) {
    if tweets == [] then 0
    else (if tweets[0].UserId == u then CountWhere(likes, LikeTweet, tweets[0].id) else 0)
         + LikesOnTweetsOf(tweets[1..], likes, u)
  }

  lemma {:induction false} LikesOnTweetsOfNoLikes(tweets: seq<Tweet>, u: Id)
    ensures LikesOnTweetsOf(tweets, [], u) == 0
  {
    if tweets != [] { LikesOnTweetsOfNoLikes(tweets[1..], u); }
  }

  lemma {:induction false} LikesOnTweetsOfCons(tweets: seq<Tweet>, l: Like, likes: seq<Like>, u: Id)
    ensures LikesOnTweetsOf(tweets, [l] + likes, u) == JoinedTweets(tweets, l.TweetId, u) + LikesOnTweetsOf(tweets, likes, u)
  {
    assert ([l] + likes)[1..] == likes;
    if tweets != [] { LikesOnTweetsOfCons(tweets[1..], l, likes, u); }
  }

  /** The join count equals the reference: likes counted are likes RECEIVED on u's
      tweets, not likes u gave. */
  lemma {:induction false} LikesReceivedIsLikesOnOwnTweets(likes: seq<Like>, tweets: seq<Tweet>, u: Id)
    ensures LikesJoinCount(likes, tweets, u) == LikesOnTweetsOf(tweets, likes, u)
  {
    if likes == [] {
      LikesOnTweetsOfNoLikes(tweets, u);
    } else {
      LikesReceivedIsLikesOnOwnTweets(likes[1..], tweets, u);
      assert likes == [likes[0]] + likes[1..];
      LikesOnTweetsOfCons(tweets, likes[0], likes[1..], u);
    }
  }

  /** With unique tweet ids a stored tweet joins exactly once. */
  lemma {:induction false} JoinedTweetsOnce(tweets: seq<Tweet>, k: nat)
    requires UniqueTweetIds(tweets) && k < |tweets|
    ensures JoinedTweets(tweets, tweets[k].id, tweets[k].UserId) == 1
  {
    if k == 0 {
      JoinedTweetsAbsent(tweets[1..], tweets[0].id, tweets[0].UserId);
    } else {
      assert UniqueTweetIds(tweets[1..]);
      JoinedTweetsOnce(tweets[1..], k - 1);
    }
  }

  lemma {:induction false} JoinedTweetsAbsent(tweets: seq<Tweet>, tweetId: Id, u: Id)
    requires forall i :: 0 <= i < |tweets| ==> tweets[i].id != tweetId
    ensures JoinedTweets(tweets, tweetId, u) == 0
  {
    if tweets != [] { JoinedTweetsAbsent(tweets[1..], tweetId, u); }
  }

  /** Duplicate Like rows are not collapsed: one more Like on a tweet of u's, even by
      a user who already liked it, raises u's count by one. */
  lemma LikesReceivedCountsEveryRow(likes: seq<Like>, tweets: seq<Tweet>, k: nat, l: Like)
    requires UniqueTweetIds(tweets) && k < |tweets| && l.TweetId == tweets[k].id
    ensures LikesJoinCount(likes + [l], tweets, tweets[k].UserId) == LikesJoinCount(likes, tweets, tweets[k].UserId) + 1
  {
    var u := tweets[k].UserId;
    LikesReceivedIsLikesOnOwnTweets(likes + [l], tweets, u);
    LikesReceivedIsLikesOnOwnTweets(likes, tweets, u);
    LikesReceivedIsLikesOnOwnTweets([l] + likes, tweets, u);
    LikesOnTweetsOfCons(tweets, l, likes, u);
    JoinedTweetsOnce(tweets, k);
    LikesOnTweetsOfPermute(tweets, likes, l, u);
  }

  lemma {:induction false} LikesOnTweetsOfPermute(tweets: seq<Tweet>, likes: seq<Like>, l: Like, u: Id)
    ensures LikesOnTweetsOf(tweets, likes + [l], u) == LikesOnTweetsOf(tweets, [l] + likes, u)
  {
    if tweets != [] {
      LikesOnTweetsOfPermute(tweets[1..], likes, l, u);
      CountWhereAppend(likes, [l], LikeTweet, tweets[0].id);
      CountWhereAppend([l], likes, LikeTweet, tweets[0].id);
    }
  }

  function UserPk(u: User): (k: Id) { u.id }
  function TweetPk(t: Tweet): (k: Id) { t.id }

  /** `findByPk`, and the join on a primary key: the first row with that id. */
  function FindByPk<T>(rows: seq<T>, pk: T -> Id, id: Id): (r: Option<T>)
    ensures r.Some? <==> exists i :: 0 <= i < |rows| && pk(rows[i]) == id
    ensures r.Some? ==> r.value in rows && pk(r.value) == id
  {
    if rows == [] then None
    else if pk(rows[0]) == id then Some(rows[0])
    else
      var r := FindByPk(rows[1..], pk, id);
      assert (exists i :: 0 <= i < |rows| && pk(rows[i]) == id) ==> r.Some? by {
        if exists i :: 0 <= i < |rows| && pk(rows[i]) == id {
          var i :| 0 <= i < |rows| && pk(rows[i]) == id;
          assert rows[1..][i - 1] == rows[i];
        }
      }
      r
  }

  function FindUser(users: seq<User>, id: Id): (r: Option<User>) {
    FindByPk(users, UserPk, id)
  }

  function FindTweet(tweets: seq<Tweet>, id: Id): (r: Option<Tweet>) {
    FindByPk(tweets, TweetPk, id)
  }

  /** The `include: [{ model: User, attributes: [...] }]` of a row: an outer join, so a
      row whose user is missing keeps `User: null`. */
  function AuthorOf(s: Store, userId: Id): (a: Option<Author>)
    ensures a.Some? <==> exists i :: 0 <= i < |s.users| && s.users[i].id == userId
    ensures a.Some? ==> exists i :: 0 <= i < |s.users| && s.users[i].id == userId &&
                          a.value == Author(s.users[i].account, s.users[i].name, s.users[i].avatar)
  {
    match FindUser(s.users, userId)
    case None => None
    case Some(u) => Some(AuthorColumns(u))
  }

  /** With unique primary keys, the author included for a stored user's row is that
      user's own columns. */
  lemma AuthorIsTheUser(s: Store, i: nat)
    requires UniqueUserIds(s.users) && i < |s.users|
    ensures AuthorOf(s, s.users[i].id) == Some(AuthorColumns(s.users[i]))
  {
    var a := AuthorOf(s, s.users[i].id);
    var j :| 0 <= j < |s.users| && s.users[j].id == s.users[i].id &&
             a.value == Author(s.users[j].account, s.users[j].name, s.users[j].avatar);
    assert j == i;
  }
}

/**
 The back-office controller: the admin-role sign-in gate, the user leaderboard
 with its four derived counts and four-key ranking, and the two tweet endpoints,
 which are stubs.
 */
module AdminController {
  import opened Common
  import opened Entities
  import opened Queries
  import opened Sorting
  import RoleGate

  // ---------------------------------------------------------------- signIn

  /** `signIn`: only an 'admin' account is issued a back-office token. */
  function SignIn(u: User, sign: PublicUser -> string): (r: Result<RoleGate.Session, RoleGate.SignInError>)
    ensures r.Ok? <==> u.role == AdminRole
    ensures r.Ok? ==> r.value.user == WithoutPassword(u) && r.value.token == sign(WithoutPassword(u))
    ensures r.Err? ==> r.error == RoleGate.NoSuchUser && r.error.accountErrMsg == "帳號不存在！"
  {
    RoleGate.SignInAs(AdminRole, u, sign)
  }

  // ---------------------------------------------------------------- getUsers

  /** One leaderboard row: the user without password and the four computed attributes. */
  datatype UserStats = UserStats(
    user: PublicUser,
    tweetsNum: nat,
    likesNum: nat,
    followingsNum: nat,
    followersNum: nat)

  function StatsOf(s: Store, u: User): (st: UserStats) {
    UserStats(WithoutPassword(u), TweetsNum(s, u.id), LikesReceived(s, u.id), FollowingsNum(s, u.id), FollowersNum(s, u.id))
  }

  /** Every stored user, admins included, in table order. */
  function AllStats(s: Store): (r: seq<UserStats>)
    ensures |r| == |s.users| && forall i :: 0 <= i < |s.users| ==> r[i] == StatsOf(s, s.users[i])
  {
    seq(|s.users|, i requires 0 <= i < |s.users| => StatsOf(s, s.users[i]))
  }

  /** The `order` keys in priority order: followersNum before followingsNum. */
  function RankKey(st: UserStats): (key: (nat, nat, nat, nat)) {
    (st.tweetsNum, st.likesNum, st.followersNum, st.followingsNum)
  }

  /** Lexicographic `>=` on the keys: four `DESC` keys, the first difference decides. */
  predicate KeyAtLeast(a: (nat, nat, nat, nat), b: (nat, nat, nat, nat)) {
    || a.0 > b.0
    || (a.0 == b.0 && a.1 > b.1)
    || (a.0 == b.0 && a.1 == b.1 && a.2 > b.2)
    || (a.0 == b.0 && a.1 == b.1 && a.2 == b.2 && a.3 >= b.3)
  }

  predicate RanksAtLeast(a: UserStats, b: UserStats) {
    KeyAtLeast(RankKey(a), RankKey(b))
  }

  lemma RanksAtLeastIsPreorder()
    ensures TotalPreorder(RanksAtLeast)
  {
  }

  /** A leaderboard the query may return: every user's row exactly once, ordered by
      the four keys; users tied on all four may come in any order. */
  ghost predicate IsRanking(s: Store, r: seq<UserStats>) {
    multiset(r) == multiset(AllStats(s)) && SortedBy(r, RanksAtLeast)
  }

  /** An element of the leaderboard: a stored user's public record, the tweets the
      user wrote, the likes received on them, and the user's follow counts. */
  predicate ListedUser(s: Store, st: UserStats) {
    && (exists i :: 0 <= i < |s.users| && st.user == WithoutPassword(s.users[i]))
    && st.tweetsNum == multiset(Column(s.tweets, TweetAuthor))[st.user.id]
    && st.likesNum == LikesOnTweetsOf(s.tweets, s.likes, st.user.id)
    && st.followingsNum == multiset(Column(s.followships, Follower))[st.user.id]
    && st.followersNum == multiset(Column(s.followships, Followed))[st.user.id]
  }

  /** `getUsers`. */
  function GetUsers(s: Store): (r: seq<UserStats>)
    ensures IsRanking(s, r)
    ensures |r| == |s.users|
    ensures forall k :: 0 <= k < |r| ==> ListedUser(s, r[k])
    ensures forall i :: 0 <= i < |s.users| ==> StatsOf(s, s.users[i]) in r
  {
    RanksAtLeastIsPreorder();
    var r := Sort(AllStats(s), RanksAtLeast);
    RankingFacts(s, r);
    r
  }

  /** What any arrangement of every user's row holds. */
  lemma RankingFacts(s: Store, r: seq<UserStats>)
    requires multiset(r) == multiset(AllStats(s))
    ensures |r| == |s.users|
    ensures forall k :: 0 <= k < |r| ==> ListedUser(s, r[k])
    ensures forall i :: 0 <= i < |s.users| ==> StatsOf(s, s.users[i]) in r
  {
    SameElements(r, AllStats(s));
    AllStatsListed(s);
    RankingCovers(s, r);
  }

  lemma RankingCovers(s: Store, r: seq<UserStats>)
    requires multiset(r) == multiset(AllStats(s))
    ensures forall i :: 0 <= i < |s.users| ==> StatsOf(s, s.users[i]) in r
  {
    forall i | 0 <= i < |s.users| ensures StatsOf(s, s.users[i]) in r {
      assert AllStats(s)[i] in multiset(r);
    }
  }

  lemma AllStatsListed(s: Store)
    ensures forall i :: 0 <= i < |s.users| ==> ListedUser(s, AllStats(s)[i])
  {
    CountsAreMultiplicities(s);
    forall i | 0 <= i < |s.users| ensures ListedUser(s, AllStats(s)[i]) {
      LikesReceivedIsLikesOnOwnTweets(s.likes, s.tweets, s.users[i].id);
    }
  }

  /** A row with strictly higher keys is always listed above. */
  lemma HigherRankFirst(s: Store, r: seq<UserStats>, i: nat, j: nat)
    requires IsRanking(s, r) && i < |r| && j < |r|
    requires !KeyAtLeast(RankKey(r[j]), RankKey(r[i]))
    ensures i < j
  {
  }

  /** With equal tweet and like counts, more followers outranks more followings. */
  lemma FollowersOutrankFollowings(s: Store, r: seq<UserStats>, i: nat, j: nat)
    requires IsRanking(s, r) && i < |r| && j < |r|
    requires r[i].tweetsNum == r[j].tweetsNum && r[i].likesNum == r[j].likesNum
    requires r[i].followersNum > r[j].followersNum
    ensures i < j
  {
    HigherRankFirst(s, r, i, j);
  }

  /** Ties are left to the database, yet every leaderboard the query may return has
      the same keys at every position: only users tied on all four keys can trade places. */
  lemma RankingsAgreeOnKeys(s: Store, r1: seq<UserStats>, r2: seq<UserStats>)
    requires IsRanking(s, r1) && IsRanking(s, r2)
    ensures |r1| == |r2| && forall i :: 0 <= i < |r1| ==> RankKey(r1[i]) == RankKey(r2[i])
  {
    SortedSameKeys(r1, r2);
  }

  lemma {:induction false} SortedSameKeys(a: seq<UserStats>, b: seq<UserStats>)
    requires multiset(a) == multiset(b) && SortedBy(a, RanksAtLeast) && SortedBy(b, RanksAtLeast)
    ensures |a| == |b| && forall i :: 0 <= i < |a| ==> RankKey(a[i]) == RankKey(b[i])
    decreases |a|
  {
    assert |multiset(a)| == |multiset(b)|;
    if a != [] {
      assert a[0] in multiset(b);
      var j :| 0 <= j < |b| && b[j] == a[0];
      FirstKeysEqual(a, b);
      PrefixShareKey(b, j);
      var rest := b[..j] + b[j + 1..];
      DropOne(a, b, j);
      DropKeepsSorted(b, j);
      assert SortedBy(a[1..], RanksAtLeast);
      SortedSameKeys(a[1..], rest);
      ShiftKeys(a, b, j);
    }
  }

  lemma ShiftKeys(a: seq<UserStats>, b: seq<UserStats>, j: nat)
    requires a != [] && |a| == |b| && j < |b|
    requires RankKey(a[0]) == RankKey(b[0])
    requires forall t :: 0 <= t <= j ==> RankKey(b[t]) == RankKey(b[0])
    requires var rest := b[..j] + b[j + 1..];
             forall i :: 0 <= i < |a| - 1 ==> RankKey(a[1..][i]) == RankKey(rest[i])
    ensures forall i :: 0 <= i < |a| ==> RankKey(a[i]) == RankKey(b[i])
  {
    var rest := b[..j] + b[j + 1..];
    forall i | 0 <= i < |a| ensures RankKey(a[i]) == RankKey(b[i]) {
      if 0 < i {
        assert a[i] == a[1..][i - 1];
        if i - 1 < j {
          assert rest[i - 1] == b[i - 1];
        } else {
          assert rest[i - 1] == b[i];
        }
      }
    }
  }

  /** The four keys decide every comparison: rows that rank at least as high as each other have equal keys. */
  lemma KeysAntisymmetric(a: UserStats, b: UserStats)
    requires RanksAtLeast(a, b) && RanksAtLeast(b, a)
    ensures RankKey(a) == RankKey(b)
  {
  }

  lemma FirstKeysEqual(a: seq<UserStats>, b: seq<UserStats>)
    requires multiset(a) == multiset(b) && SortedBy(a, RanksAtLeast) && SortedBy(b, RanksAtLeast)
    requires a != [] && b != []
    ensures RankKey(a[0]) == RankKey(b[0])
  {
    assert a[0] in multiset(b) && b[0] in multiset(a);
    var j :| 0 <= j < |b| && b[j] == a[0];
    var m :| 0 <= m < |a| && a[m] == b[0];
    assert RanksAtLeast(b[0], b[j]) by { if j > 0 { assert SortedBy(b, RanksAtLeast); } }
    assert RanksAtLeast(a[0], a[m]) by { if m > 0 { assert SortedBy(a, RanksAtLeast); } }
    KeysAntisymmetric(a[0], b[0]);
  }

  lemma PrefixShareKey(b: seq<UserStats>, j: nat)
    requires SortedBy(b, RanksAtLeast) && j < |b| && RankKey(b[j]) == RankKey(b[0])
    ensures forall t :: 0 <= t <= j ==> RankKey(b[t]) == RankKey(b[0])
  {
    forall t | 0 <= t <= j ensures RankKey(b[t]) == RankKey(b[0]) {
      if 0 < t < j {
        assert RanksAtLeast(b[0], b[t]) && RanksAtLeast(b[t], b[j]);
        KeysAntisymmetric(b[0], b[t]);
      }
    }
  }

  lemma DropKeepsSorted(b: seq<UserStats>, j: nat)
    requires SortedBy(b, RanksAtLeast) && j < |b|
    ensures SortedBy(b[..j] + b[j + 1..], RanksAtLeast)
  {
    var rest := b[..j] + b[j + 1..];
    forall p, q | 0 <= p < q < |rest| ensures RanksAtLeast(rest[p], rest[q]) {
      var p' := if p < j then p else p + 1;
      var q' := if q < j then q else q + 1;
      assert rest[p] == b[p'] && rest[q] == b[q'] && p' < q';
    }
  }

  // ---------------------------------------------------------------- getTweets, deleteTweet

  /** The body of both stub responses: `{}`. */
  datatype StubBody = EmptyObject

  /** `getTweets`: answers `{}` and reads nothing. */
  function GetTweets(s: Store): (r: (Store, StubBody))
    ensures r.0 == s && r.1 == EmptyObject
  {
    (s, EmptyObject)
  }

  /** `deleteTweet`: answers `{}` and deletes nothing; the tweet, its replies and its
      likes all stay. */
  function DeleteTweet(s: Store, tweetId: Id): (r: (Store, StubBody))
    ensures r.0 == s && r.1 == EmptyObject
  {
    (s, EmptyObject)
  }
}

/**
 The front-end user controller: sign-up validation and account creation, the
 user-role sign-in gate, a user's profile with follow counts, and the three
 per-user listings (tweets, replies, liked tweets).
 */
module UserController {
  import opened Common
  import opened Entities
  import opened Queries
  import opened Sorting
  import opened Persistence
  import RoleGate

  // ---------------------------------------------------------------- signUp

  /** A request body field: absent, or the string sent. */
  type Field = Option<string>

  /** JavaScript truthiness of a body field: present and not ''. */
  predicate Filled(f: Field) {
    f.Some? && f.value != ""
  }

  /** `value || fallback`. */
  function OrDefault(f: Field, fallback: string): (v: string) {
    if Filled(f) then f.value else fallback
  }

  datatype Form = Form(
    account: Field,
    name: Field,
    email: Field,
    password: Field,
    checkPassword: Field,
    introduction: Field,
    avatar: Field,
    banner: Field)

  predicate AllRequiredFilled(f: Form) {
    Filled(f.account) && Filled(f.name) && Filled(f.email) && Filled(f.password) && Filled(f.checkPassword)
  }

  /** One message slot per form field, shown next to that field. */
  datatype Cause = Cause(
    accountErrMsg: string,
    nameErrMsg: string,
    emailErrMsg: string,
    passwordErrMsg: string,
    checkPasswordErrMsg: string)

  const NoCause := Cause("", "", "", "", "")

  datatype SignUpError = SignUpError(message: string, cause: Cause)

  const EmptyInput := "Empty input value!"
  const ImproperInput := "Inproper input value!"
  const AccountRequired := "account 為必填欄位。"
  const NameRequired := "name 為必填欄位。"
  const EmailRequired := "email 為必填欄位。"
  const PasswordRequired := "password 為必填欄位。"
  const CheckPasswordRequired := "checkPassword 為必填欄位。"
  const PasswordMismatch := "確認密碼不相符。"
  const NameTooLong := "名稱不得超過50字。"
  const AccountDuplicate := "account 已重複註冊！"
  const EmailDuplicate := "email 已重複註冊！"
  const MaxNameLength := 50
  const DefaultAvatar := "https://via.placeholder.com/224"
  const DefaultBanner := "https://images.unsplash.com/photo-1580436541340-36b8d0c60bae"

  /** `User.findOne({ where: { account } })` finds a row. */
  predicate AccountTaken(users: seq<User>, account: string) {
    exists i :: 0 <= i < |users| && users[i].account == account
  }

  /** `User.findOne({ where: { email } })` finds a row. */
  predicate EmailTaken(users: seq<User>, email: string) {
    exists i :: 0 <= i < |users| && users[i].email == email
  }

  /** First stage: every missing required field gets its own message. */
  function RequiredCause(f: Form): (c: Cause) {
    Cause(
      if Filled(f.account) then "" else AccountRequired,
      if Filled(f.name) then "" else NameRequired,
      if Filled(f.email) then "" else EmailRequired,
      if Filled(f.password) then "" else PasswordRequired,
      if Filled(f.checkPassword) then "" else CheckPasswordRequired)
  }

  /** Second stage, on a complete form: every violated rule adds its message. */
  function ImproperCause(users: seq<User>, f: Form): (c: Cause)
    requires AllRequiredFilled(f)
  {
    Cause(
      if AccountTaken(users, f.account.value) then AccountDuplicate else "",
      if |f.name.value| > MaxNameLength then NameTooLong else "",
      if EmailTaken(users, f.email.value) then EmailDuplicate else "",
      "",
      if f.password.value != f.checkPassword.value then PasswordMismatch else "")
  }

  /** Specification of the validation: the outcome and every message of `cause`. */
  function SignUpCheck(users: seq<User>, f: Form): (r: Result<(), SignUpError>) {
    if !AllRequiredFilled(f) then Err(SignUpError(EmptyInput, RequiredCause(f)))
    else if ImproperCause(users, f) != NoCause then Err(SignUpError(ImproperInput, ImproperCause(users, f)))
    else Ok(())
  }

  /** The validation as the controller runs it: `cause` starts blank and each check
      appends to one of its fields; the first stage stops before the store is read. */
  method CheckSignUp(users: seq<User>, f: Form) returns (r: Result<(), SignUpError>)
    ensures r == SignUpCheck(users, f)
  {
    var cause := NoCause;
    if !Filled(f.account) { cause := cause.(accountErrMsg := cause.accountErrMsg + AccountRequired); }
    if !Filled(f.name) { cause := cause.(nameErrMsg := cause.nameErrMsg + NameRequired); }
    if !Filled(f.email) { cause := cause.(emailErrMsg := cause.emailErrMsg + EmailRequired); }
    if !Filled(f.password) { cause := cause.(passwordErrMsg := cause.passwordErrMsg + PasswordRequired); }
    if !Filled(f.checkPassword) {
      cause := cause.(checkPasswordErrMsg := cause.checkPasswordErrMsg + CheckPasswordRequired);
    }
    assert cause == RequiredCause(f);
    if cause != NoCause {
      return Err(SignUpError(EmptyInput, cause));
    }

    if f.password.value != f.checkPassword.value {
      cause := cause.(checkPasswordErrMsg := cause.checkPasswordErrMsg + PasswordMismatch);
    }
    if |f.name.value| > MaxNameLength { cause := cause.(nameErrMsg := cause.nameErrMsg + NameTooLong); }

    var user1 := AccountTaken(users, f.account.value);
    var user2 := EmailTaken(users, f.email.value);
    if user1 { cause := cause.(accountErrMsg := cause.accountErrMsg + AccountDuplicate); }
    if user2 { cause := cause.(emailErrMsg := cause.emailErrMsg + EmailDuplicate); }

    assert cause == ImproperCause(users, f);
    if cause != NoCause {
      return Err(SignUpError(ImproperInput, cause));
    }
    return Ok(());
  }

  /** `signUp`: validate, then create the account with role 'user', the password
      replaced by its hash and the optional fields defaulted. */
  method SignUp(db: Database, f: Form, hash: string -> string) returns (r: Result<User, SignUpError>)
    requires db.Valid()
    modifies db
    ensures db.Valid()
    ensures r.Err? <==> SignUpCheck(old(db.users), f).Err?
    ensures r.Err? ==> r.error == SignUpCheck(old(db.users), f).error
    ensures r.Err? ==> db.users == old(db.users) && db.nextUserId == old(db.nextUserId)
    ensures r.Ok? ==> && AllRequiredFilled(f)
                      && db.users == old(db.users) + [r.value]
                      && db.nextUserId == old(db.nextUserId) + 1
                      && r.value.id == old(db.nextUserId)
                      && r.value.account == f.account.value
                      && r.value.name == f.name.value
                      && r.value.email == f.email.value
                      && r.value.password == hash(f.password.value)
                      && r.value.introduction == OrDefault(f.introduction, "")
                      && r.value.avatar == OrDefault(f.avatar, DefaultAvatar)
                      && r.value.banner == OrDefault(f.banner, DefaultBanner)
                      && r.value.role == UserRole
    ensures db.tweets == old(db.tweets) && db.replies == old(db.replies)
    ensures db.likes == old(db.likes) && db.followships == old(db.followships)
  {
    var check := CheckSignUp(db.users, f);
    if check.Err? {
      return Err(check.error);
    }
    SignUpAdmitsFreshAccount(db.users, f);
    var user := db.CreateUser(
      f.account.value, f.name.value, f.email.value, hash(f.password.value),
      OrDefault(f.introduction, ""), OrDefault(f.avatar, DefaultAvatar), OrDefault(f.banner, DefaultBanner),
      UserRole);
    return Ok(user);
  }

  /** A missing required field fails with "Empty input value!", whatever the store
      holds; each field's slot carries a message exactly when that field is missing. */
  lemma EmptyFieldFailsFirst(users: seq<User>, other: seq<User>, f: Form)
    requires !AllRequiredFilled(f)
    ensures SignUpCheck(users, f) == SignUpCheck(other, f)
    ensures SignUpCheck(users, f).Err? && SignUpCheck(users, f).error.message == EmptyInput
    ensures var c := SignUpCheck(users, f).error.cause;
            && (c.accountErrMsg != "" <==> !Filled(f.account))
            && (c.nameErrMsg != "" <==> !Filled(f.name))
            && (c.emailErrMsg != "" <==> !Filled(f.email))
            && (c.passwordErrMsg != "" <==> !Filled(f.password))
            && (c.checkPasswordErrMsg != "" <==> !Filled(f.checkPassword))
  {
  }

  /** On a complete form the second-stage checks do not stop at the first failure:
      each rule sets its own slot, and all of them can fail together. */
  lemma ImproperErrorsAccumulate(users: seq<User>, f: Form)
    requires AllRequiredFilled(f)
    ensures SignUpCheck(users, f).Err? ==> SignUpCheck(users, f).error.message == ImproperInput
    ensures var c := ImproperCause(users, f);
            && (c.checkPasswordErrMsg != "" <==> f.password.value != f.checkPassword.value)
            && (c.nameErrMsg != "" <==> |f.name.value| > MaxNameLength)
            && (c.accountErrMsg != "" <==> AccountTaken(users, f.account.value))
            && (c.emailErrMsg != "" <==> EmailTaken(users, f.email.value))
            && c.passwordErrMsg == ""
    ensures SignUpCheck(users, f).Err? ==> SignUpCheck(users, f).error.cause == ImproperCause(users, f)
  {
  }

  /** A complete form is admitted iff the passwords match, the name has at most 50
      characters, and no stored user has its account or its email. */
  lemma SignUpAdmitsExactly(users: seq<User>, f: Form)
    requires AllRequiredFilled(f)
    ensures SignUpCheck(users, f).Ok? <==>
              && f.password.value == f.checkPassword.value
              && |f.name.value| <= MaxNameLength
              && (forall i :: 0 <= i < |users| ==> users[i].account != f.account.value)
              && (forall i :: 0 <= i < |users| ==> users[i].email != f.email.value)
  {
  }

  /** An admitted form is complete and its account and email are new to the store. */
  lemma SignUpAdmitsFreshAccount(users: seq<User>, f: Form)
    requires SignUpCheck(users, f).Ok?
    ensures AllRequiredFilled(f)
    ensures forall i :: 0 <= i < |users| ==> users[i].account != f.account.value && users[i].email != f.email.value
  {
  }

  /** Every violation of the second stage fails at once: a mismatched confirmation, a
      51-character name, and an account and an email both already registered. */
  lemma AllFourFailuresTogether(taken: User)
    ensures var f := Form(Some(taken.account), Some(seq(MaxNameLength + 1, _ => 'a')), Some(taken.email),
                          Some("secret"), Some("other"), None, None, None);
            taken.account != "" && taken.email != "" ==>
              SignUpCheck([taken], f) == Err(SignUpError(ImproperInput,
                Cause(AccountDuplicate, NameTooLong, EmailDuplicate, "", PasswordMismatch)))
  {
    var f := Form(Some(taken.account), Some(seq(MaxNameLength + 1, _ => 'a')), Some(taken.email),
                  Some("secret"), Some("other"), None, None, None);
    if taken.account != "" && taken.email != "" {
      assert AccountTaken([taken], f.account.value) by { assert [taken][0].account == taken.account; }
      assert EmailTaken([taken], f.email.value) by { assert [taken][0].email == taken.email; }
    }
  }

  // ---------------------------------------------------------------- signIn

  /** `signIn`: only a 'user' account is issued a front-end token. */
  function SignIn(u: User, sign: PublicUser -> string): (r: Result<RoleGate.Session, RoleGate.SignInError>)
    ensures r.Ok? <==> u.role == UserRole
    ensures r.Ok? ==> r.value.user == WithoutPassword(u) && r.value.token == sign(WithoutPassword(u))
    ensures r.Err? ==> r.error == RoleGate.NoSuchUser
  {
    RoleGate.SignInAs(UserRole, u, sign)
  }

  /** The account a successful sign-up creates is one this gate lets in, which is
      what the route relies on when it hands the new user straight to `signIn`. */
  lemma NewAccountSignsIn(f: Form, hash: string -> string, id: Id, sign: PublicUser -> string)
    requires AllRequiredFilled(f)
    ensures var u := User(id, f.account.value, f.name.value, f.email.value, hash(f.password.value),
                          OrDefault(f.introduction, ""), OrDefault(f.avatar, DefaultAvatar),
                          OrDefault(f.banner, DefaultBanner), UserRole);
            SignIn(u, sign).Ok? && SignIn(u, sign).value.user.role == UserRole
  {
  }

  // ---------------------------------------------------------------- getUser

  /** Why a read fails: the looked-up row is missing and the controller dereferences it. */
  datatype QueryError = UserNotFound | TweetNotFound

  /** The profile: the user's columns without the password, plus both follow counts. */
  datatype Profile = Profile(user: PublicUser, followingNum: nat, followerNum: nat)

  /** `getUser`: `findByPk` then `delete user.password`, which throws when no row has that id. */
  function GetUser(s: Store, id: Id): (r: Result<Profile, QueryError>)
    ensures r.Ok? <==> exists i :: 0 <= i < |s.users| && s.users[i].id == id
    ensures r.Err? ==> r.error == UserNotFound
    ensures r.Ok? ==> exists i :: 0 <= i < |s.users| && s.users[i].id == id && r.value.user == WithoutPassword(s.users[i])
    ensures r.Ok? ==> r.value.followingNum == multiset(Column(s.followships, Follower))[id]
    ensures r.Ok? ==> r.value.followerNum == multiset(Column(s.followships, Followed))[id]
  {
    CountsAreMultiplicities(s);
    match FindUser(s.users, id)
    case None => Err(UserNotFound)
    case Some(u) => Ok(Profile(WithoutPassword(u), FollowingsNum(s, id), FollowersNum(s, id)))
  }

  // ---------------------------------------------------------------- getUserTweets

  /** One element of the tweet listing: the tweet's columns, its author, the three
      computed attributes and the relative-time label. */
  datatype TweetEntry = TweetEntry(
    tweet: Tweet,
    User: Option<Author>,
    repliesNum: nat,
    likesNum: nat,
    isLiked: bool,
    fromNow: string)

  /** A tweet with `isLiked: Boolean(EXISTS ...)` for the viewer and the label taken from its creation time. */
  function TweetEntryOf(s: Store, viewerId: Id, fromNow: Time -> string, t: Tweet): (e: TweetEntry) {
    TweetEntry(t, AuthorOf(s, t.UserId), RepliesNum(s, t.id), LikesNum(s, t.id),
               LikedFlag(s.likes, t.id, viewerId) != 0, fromNow(t.createdAt))
  }

  function TweetEntries(s: Store, viewerId: Id, fromNow: Time -> string, ts: seq<Tweet>): (r: seq<TweetEntry>)
    ensures |r| == |ts| && forall i :: 0 <= i < |ts| ==> r[i] == TweetEntryOf(s, viewerId, fromNow, ts[i])
  {
    seq(|ts|, i requires 0 <= i < |ts| => TweetEntryOf(s, viewerId, fromNow, ts[i]))
  }

  /** `order: [['createdAt', 'DESC']]`. */
  predicate NewerTweetFirst(a: TweetEntry, b: TweetEntry) {
    a.tweet.createdAt >= b.tweet.createdAt
  }

  lemma NewerTweetFirstIsPreorder()
    ensures TotalPreorder(NewerTweetFirst)
  {
  }

  /** An element of `userId`'s tweet listing as seen by `viewerId`: one of the user's
      stored tweets, its author's columns, as many `repliesNum` as Reply rows name the
      tweet, as many `likesNum` as Like rows do, and `isLiked` exactly when the viewer
      has a Like row for it. */
  predicate ListedTweet(s: Store, userId: Id, viewerId: Id, fromNow: Time -> string, e: TweetEntry) {
    && e.tweet in s.tweets
    && e.tweet.UserId == userId
    && e.User == AuthorOf(s, userId)
    && e.repliesNum == multiset(Column(s.replies, ReplyTweet))[e.tweet.id]
    && e.likesNum == multiset(Column(s.likes, LikeTweet))[e.tweet.id]
    && (e.isLiked <==> LikedBy(s.likes, e.tweet.id, viewerId))
    && e.fromNow == fromNow(e.tweet.createdAt)
  }

  /** `getUserTweets`: exactly the tweets `userId` wrote, newest first, each with its
      reply and like counts and whether the viewer liked it. */
  function GetUserTweets(s: Store, userId: Id, viewerId: Id, fromNow: Time -> string): (r: seq<TweetEntry>)
    ensures SortedBy(r, NewerTweetFirst)
    ensures multiset(r) == multiset(TweetEntries(s, viewerId, fromNow, FilterWhere(s.tweets, TweetAuthor, userId)))
    ensures |r| == multiset(Column(s.tweets, TweetAuthor))[userId]
    ensures forall k :: 0 <= k < |r| ==> ListedTweet(s, userId, viewerId, fromNow, r[k])
    ensures forall t :: t in s.tweets && t.UserId == userId ==> exists k :: 0 <= k < |r| && r[k].tweet == t
  {
    NewerTweetFirstIsPreorder();
    var mine := FilterWhere(s.tweets, TweetAuthor, userId);
    var entries := TweetEntries(s, viewerId, fromNow, mine);
    var r := Sort(entries, NewerTweetFirst);
    SameElements(r, entries);
    TweetEntriesListed(s, userId, viewerId, fromNow);
    CountWhereIsMultiplicity(s.tweets, TweetAuthor, userId);
    TweetListingCovers(s, userId, entries, r);
    r
  }

  /** Any arrangement of the entries lists every tweet the user wrote. */
  lemma TweetListingCovers(s: Store, userId: Id, entries: seq<TweetEntry>, r: seq<TweetEntry>)
    requires var mine := FilterWhere(s.tweets, TweetAuthor, userId);
             |entries| == |mine| && forall i :: 0 <= i < |mine| ==> entries[i].tweet == mine[i]
    requires multiset(r) == multiset(entries)
    ensures forall t :: t in s.tweets && t.UserId == userId ==> exists k :: 0 <= k < |r| && r[k].tweet == t
  {
    var mine := FilterWhere(s.tweets, TweetAuthor, userId);
    forall t | t in s.tweets && t.UserId == userId ensures exists k :: 0 <= k < |r| && r[k].tweet == t {
      assert t in mine;
      var i :| 0 <= i < |mine| && mine[i] == t;
      assert entries[i] in multiset(r);
      var k :| 0 <= k < |r| && r[k] == entries[i];
    }
  }

  lemma TweetEntriesListed(s: Store, userId: Id, viewerId: Id, fromNow: Time -> string)
    ensures var entries := TweetEntries(s, viewerId, fromNow, FilterWhere(s.tweets, TweetAuthor, userId));
            forall i :: 0 <= i < |entries| ==> ListedTweet(s, userId, viewerId, fromNow, entries[i])
  {
    CountsAreMultiplicities(s);
    var mine := FilterWhere(s.tweets, TweetAuthor, userId);
    forall i | 0 <= i < |mine| ensures mine[i] in s.tweets && mine[i].UserId == userId {
      assert mine[i] in mine;
    }
  }

  // ---------------------------------------------------------------- getUserReplies

  /** One element of the reply listing. The `repliedTo` attribute is not modelled. */
  datatype ReplyEntry = ReplyEntry(reply: Reply, User: Option<Author>, fromNow: string)

  function ReplyEntryOf(s: Store, fromNow: Time -> string, r: Reply): (e: ReplyEntry) {
    ReplyEntry(r, AuthorOf(s, r.UserId), fromNow(r.createdAt))
  }

  function ReplyEntries(s: Store, fromNow: Time -> string, rs: seq<Reply>): (r: seq<ReplyEntry>)
    ensures |r| == |rs| && forall i :: 0 <= i < |rs| ==> r[i] == ReplyEntryOf(s, fromNow, rs[i])
  {
    seq(|rs|, i requires 0 <= i < |rs| => ReplyEntryOf(s, fromNow, rs[i]))
  }

  predicate NewerReplyFirst(a: ReplyEntry, b: ReplyEntry) {
    a.reply.createdAt >= b.reply.createdAt
  }

  lemma NewerReplyFirstIsPreorder()
    ensures TotalPreorder(NewerReplyFirst)
  {
  }

  /** An element of `userId`'s reply listing: one of the user's stored replies with its
      author's columns and the label of its creation time. */
  predicate ListedReply(s: Store, userId: Id, fromNow: Time -> string, e: ReplyEntry) {
    && e.reply in s.replies
    && e.reply.UserId == userId
    && e.User == AuthorOf(s, userId)
    && e.fromNow == fromNow(e.reply.createdAt)
  }

  /** `getUserReplies`: exactly the replies `userId` wrote, newest first. */
  function GetUserReplies(s: Store, userId: Id, fromNow: Time -> string): (r: seq<ReplyEntry>)
    ensures SortedBy(r, NewerReplyFirst)
    ensures multiset(r) == multiset(ReplyEntries(s, fromNow, FilterWhere(s.replies, ReplyAuthor, userId)))
    ensures |r| == multiset(Column(s.replies, ReplyAuthor))[userId]
    ensures forall k :: 0 <= k < |r| ==> ListedReply(s, userId, fromNow, r[k])
    ensures forall x :: x in s.replies && x.UserId == userId ==> exists k :: 0 <= k < |r| && r[k].reply == x
  {
    NewerReplyFirstIsPreorder();
    var mine := FilterWhere(s.replies, ReplyAuthor, userId);
    var entries := ReplyEntries(s, fromNow, mine);
    var r := Sort(entries, NewerReplyFirst);
    SameElements(r, entries);
    ReplyEntriesListed(s, userId, fromNow);
    CountWhereIsMultiplicity(s.replies, ReplyAuthor, userId);
    ReplyListingCovers(s, userId, entries, r);
    r
  }

  lemma ReplyEntriesListed(s: Store, userId: Id, fromNow: Time -> string)
    ensures var entries := ReplyEntries(s, fromNow, FilterWhere(s.replies, ReplyAuthor, userId));
            forall i :: 0 <= i < |entries| ==> ListedReply(s, userId, fromNow, entries[i])
  {
    var mine := FilterWhere(s.replies, ReplyAuthor, userId);
    forall i | 0 <= i < |mine| ensures mine[i] in s.replies && mine[i].UserId == userId {
      assert mine[i] in mine;
    }
  }

  /** Any arrangement of the entries lists every reply the user wrote. */
  lemma ReplyListingCovers(s: Store, userId: Id, entries: seq<ReplyEntry>, r: seq<ReplyEntry>)
    requires var mine := FilterWhere(s.replies, ReplyAuthor, userId);
             |entries| == |mine| && forall i :: 0 <= i < |mine| ==> entries[i].reply == mine[i]
    requires multiset(r) == multiset(entries)
    ensures forall x :: x in s.replies && x.UserId == userId ==> exists k :: 0 <= k < |r| && r[k].reply == x
  {
    var mine := FilterWhere(s.replies, ReplyAuthor, userId);
    forall x | x in s.replies && x.UserId == userId ensures exists k :: 0 <= k < |r| && r[k].reply == x {
      assert x in mine;
      var i :| 0 <= i < |mine| && mine[i] == x;
      assert entries[i] in multiset(r);
      var k :| 0 <= k < |r| && r[k] == entries[i];
    }
  }

  // ---------------------------------------------------------------- getUserLikes

  /** The liked tweet embedded in a like: its columns, its author, its two counts,
      the label of its creation time and `isLiked: true`. */
  datatype LikedTweet = LikedTweet(
    tweet: Tweet,
    User: Option<Author>,
    repliesNum: nat,
    likesNum: nat,
    fromNow: string,
    isLiked: bool)

  datatype LikeEntry = LikeEntry(like: Like, Tweet: LikedTweet)

  /** Every like's tweet is still stored; otherwise reading `Tweet.createdAt` throws. */
  predicate TweetsPresent(s: Store, likes: seq<Like>) {
    forall i :: 0 <= i < |likes| ==> FindTweet(s.tweets, likes[i].TweetId).Some?
  }

  function LikeEntryOf(s: Store, fromNow: Time -> string, l: Like): (e: LikeEntry)
    requires FindTweet(s.tweets, l.TweetId).Some?
  {
    var t := FindTweet(s.tweets, l.TweetId).value;
    LikeEntry(l, LikedTweet(t, AuthorOf(s, t.UserId), RepliesNum(s, t.id), LikesNum(s, t.id), fromNow(t.createdAt), true))
  }

  function LikeEntries(s: Store, fromNow: Time -> string, ls: seq<Like>): (r: seq<LikeEntry>)
    requires TweetsPresent(s, ls)
    ensures |r| == |ls| && forall i :: 0 <= i < |ls| ==> r[i] == LikeEntryOf(s, fromNow, ls[i])
  {
    seq(|ls|, i requires 0 <= i < |ls| => LikeEntryOf(s, fromNow, ls[i]))
  }

  /** `order: [['createdAt', 'DESC']]` on the Like rows. */
  predicate NewerLikeFirst(a: LikeEntry, b: LikeEntry) {
    a.like.createdAt >= b.like.createdAt
  }

  lemma NewerLikeFirstIsPreorder()
    ensures TotalPreorder(NewerLikeFirst)
  {
  }

  /** An element of `userId`'s like listing: one of the user's stored Like rows and the
      stored tweet it names, with that tweet's author and counts, and `isLiked` true,
      which agrees with the EXISTS test for the listed user. */
  predicate ListedLike(s: Store, userId: Id, fromNow: Time -> string, e: LikeEntry) {
    && e.like in s.likes
    && e.like.UserId == userId
    && e.Tweet.tweet in s.tweets
    && e.Tweet.tweet.id == e.like.TweetId
    && e.Tweet.User == AuthorOf(s, e.Tweet.tweet.UserId)
    && e.Tweet.repliesNum == multiset(Column(s.replies, ReplyTweet))[e.Tweet.tweet.id]
    && e.Tweet.likesNum == multiset(Column(s.likes, LikeTweet))[e.Tweet.tweet.id]
    && e.Tweet.fromNow == fromNow(e.Tweet.tweet.createdAt)
    && e.Tweet.isLiked
    && LikedFlag(s.likes, e.Tweet.tweet.id, userId) == 1
  }

  /** `getUserLikes`: exactly the Like rows of `userId`, newest like first, each with
      its tweet; the call fails when some liked tweet is no longer stored. */
  function GetUserLikes(s: Store, userId: Id, fromNow: Time -> string): (r: Result<seq<LikeEntry>, QueryError>)
    ensures r.Ok? <==> forall i :: 0 <= i < |s.likes| && s.likes[i].UserId == userId ==>
                          exists j :: 0 <= j < |s.tweets| && s.tweets[j].id == s.likes[i].TweetId
    ensures r.Err? ==> r.error == TweetNotFound
    ensures r.Ok? ==> SortedBy(r.value, NewerLikeFirst)
    ensures r.Ok? ==> && TweetsPresent(s, FilterWhere(s.likes, LikeUser, userId))
                      && multiset(r.value) == multiset(LikeEntries(s, fromNow, FilterWhere(s.likes, LikeUser, userId)))
    ensures r.Ok? ==> |r.value| == multiset(Column(s.likes, LikeUser))[userId]
    ensures r.Ok? ==> forall k :: 0 <= k < |r.value| ==> ListedLike(s, userId, fromNow, r.value[k])
    ensures r.Ok? ==> forall l :: l in s.likes && l.UserId == userId ==>
                        exists k :: 0 <= k < |r.value| && r.value[k].like == l
  {
    var mine := FilterWhere(s.likes, LikeUser, userId);
    LikesPresentIff(s, userId);
    if !TweetsPresent(s, mine) then Err(TweetNotFound)
    else
      NewerLikeFirstIsPreorder();
      var entries := LikeEntries(s, fromNow, mine);
      var r := Sort(entries, NewerLikeFirst);
      SameElements(r, entries);
      LikeEntriesListed(s, userId, fromNow);
      CountWhereIsMultiplicity(s.likes, LikeUser, userId);
      LikeListingCovers(s, userId, entries, r);
      Ok(r)
  }

  lemma LikesPresentIff(s: Store, userId: Id)
    ensures TweetsPresent(s, FilterWhere(s.likes, LikeUser, userId)) <==>
              forall i :: 0 <= i < |s.likes| && s.likes[i].UserId == userId ==>
                exists j :: 0 <= j < |s.tweets| && s.tweets[j].id == s.likes[i].TweetId
  {
    var mine := FilterWhere(s.likes, LikeUser, userId);
    if TweetsPresent(s, mine) {
      forall i | 0 <= i < |s.likes| && s.likes[i].UserId == userId
        ensures exists j :: 0 <= j < |s.tweets| && s.tweets[j].id == s.likes[i].TweetId
      {
        assert s.likes[i] in mine;
        var m :| 0 <= m < |mine| && mine[m] == s.likes[i];
      }
    } else {
      var m :| 0 <= m < |mine| && FindTweet(s.tweets, mine[m].TweetId).None?;
      assert mine[m] in mine;
      var i :| 0 <= i < |s.likes| && s.likes[i] == mine[m];
    }
  }

  lemma LikeEntriesListed(s: Store, userId: Id, fromNow: Time -> string)
    requires TweetsPresent(s, FilterWhere(s.likes, LikeUser, userId))
    ensures var entries := LikeEntries(s, fromNow, FilterWhere(s.likes, LikeUser, userId));
            forall i :: 0 <= i < |entries| ==> ListedLike(s, userId, fromNow, entries[i])
  {
    CountsAreMultiplicities(s);
    var mine := FilterWhere(s.likes, LikeUser, userId);
    forall i | 0 <= i < |mine|
      ensures mine[i] in s.likes && mine[i].UserId == userId
      ensures LikedFlag(s.likes, mine[i].TweetId, userId) == 1
    {
      assert mine[i] in mine;
      var j :| 0 <= j < |s.likes| && s.likes[j] == mine[i];
    }
  }

  /** Any arrangement of the entries lists every like of the user. */
  lemma LikeListingCovers(s: Store, userId: Id, entries: seq<LikeEntry>, r: seq<LikeEntry>)
    requires var mine := FilterWhere(s.likes, LikeUser, userId);
             |entries| == |mine| && forall i :: 0 <= i < |mine| ==> entries[i].like == mine[i]
    requires multiset(r) == multiset(entries)
    ensures forall l :: l in s.likes && l.UserId == userId ==> exists k :: 0 <= k < |r| && r[k].like == l
  {
    var mine := FilterWhere(s.likes, LikeUser, userId);
    forall l | l in s.likes && l.UserId == userId ensures exists k :: 0 <= k < |r| && r[k].like == l {
      assert l in mine;
      var i :| 0 <= i < |mine| && mine[i] == l;
      assert entries[i] in multiset(r);
      var k :| 0 <= k < |r| && r[k] == entries[i];
    }
  }
}

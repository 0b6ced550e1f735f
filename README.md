# Twitter API controllers: a verified model of the data rules

This project models the two controllers of a micro-blogging back end, a front-end
user controller and a back-office admin controller. It covers what those
controllers compute from the Users, Tweets, Replies, Likes and Followships tables.
HTTP, tokens and hashing are outside the model.

- **Sign-up.** The five required fields are checked first. Each missing field gets
  its own message in a `cause` record, and the request fails with
  "Empty input value!" before the store is read. On a complete form, four
  more checks add their messages without stopping: the password confirmation,
  a name of at most 50 characters, a new account and a new email. Any message
  gives "Inproper input value!". Otherwise one row is added with role `user`,
  the hashed password and default introduction, avatar and banner.
- **Sign-in role gates.** The front-end gate admits only role `user`. The
  back-office gate admits only role `admin`. Both answer with the user record
  without its password.
- **Derived counts and the viewer flag.** Each `SELECT COUNT(*)` literal counts the
  rows of one table whose foreign key equals an id. The admin `likesNum` joins
  Likes to Tweets. `isLiked` is an `EXISTS` test coerced to a boolean.
- **Listings.** A user's tweets, replies and liked tweets. Tweets and replies are
  filtered by their author. Like rows are filtered by the liking user. Each
  listing is ordered by `createdAt` descending and carries a relative-time label.
  Tweets and replies carry their author's columns, and a liked tweet carries its
  own author's columns. Only tweets and liked tweets carry the reply and like
  counts.
- **Leaderboard.** Every user, admins included, ordered descending on
  (tweetsNum, likesNum, followersNum, followingsNum).

Reads are functions over a `Store` value, which is what one read sees. Sign-up is
imperative. `CheckSignUp` builds `cause` field by field and is proved equal to the
declarative `SignUpCheck`. `SignUp` then writes to the `Database` object.
`ORDER BY` leaves the order of tied rows to the database. The model's sort keeps
table order among ties, but its contracts promise only the ordering and the
permutation. `RankingsAgreeOnKeys` shows that every admissible leaderboard has the
same keys at every position.

Files: `common.dfy` (Option, Result), `entities.dfy` (rows, store, password-free
projection), `queries.dfy` (lookups, scans and the COUNT/EXISTS literals),
`sorting.dfy` (generic ordering), `role_gate.dfy` (the shared sign-in gate),
`persistence.dfy` (the mutable store used by sign-up), `user_controller.dfy`,
`admin_controller.dfy`.

Three behaviours of the code are worth stating, because a reader might expect
otherwise:
- The admin `getTweets` and `deleteTweet` handlers are stubs that answer `{}`.
  There is no moderation listing, no 50-character truncation and no cascading
  delete.
- The listings do not check that the requested user exists. A missing id gives
  an empty listing.
- `getUserTweets` always takes the viewer from the authenticated request, so the
  viewer id is a mandatory parameter. A request without a viewer is not
  modelled.

## Model

| member | source | states |
|---|---|---|
| Entities.WithoutPasswordForgetsOnlyPassword | controllers/user-controller.js:82 | deleting the password key loses exactly the password: two users project to the same record iff they differ at most in their password |
| Queries.FilterWhere | controllers/user-controller.js:128 | a `where: { UserId }` scan keeps each row whose key matches with its full multiplicity, drops every other row, and returns as many rows as the COUNT(*) on that key |
| Queries.CountWhereIsMultiplicity | controllers/user-controller.js:138-141 | `COUNT(*) ... WHERE fk = id` equals the number of times id occurs in the foreign-key column |
| Queries.CountWhereAppend | controllers/admin-controller.js:34 | counts are additive over rows: adding rows adds exactly their own matches |
| Queries.CountWherePositive | controllers/admin-controller.js:40-43 | no matching row gives 0, never an error; a count is positive iff some row matches |
| Queries.CountsAreMultiplicities | controllers/admin-controller.js:33-45 | tweetsNum, repliesNum, likesNum, followingsNum (followerId = u) and followersNum (followingId = u) are each the multiplicity of the id in their column |
| Queries.LikedFlag | controllers/user-controller.js:145 | the EXISTS literal is 0 or 1, and 1 iff some Like row has that TweetId and that viewer's UserId |
| Queries.LikesReceivedIsLikesOnOwnTweets | controllers/admin-controller.js:37 | the Likes JOIN Tweets count equals, over the tweets the user wrote, the sum of each tweet's like count: likes received, not likes given |
| Queries.JoinedTweetsOnce | controllers/admin-controller.js:37 | with unique tweet ids a stored tweet matches exactly one row of the join |
| Queries.LikesReceivedCountsEveryRow | controllers/admin-controller.js:37 | duplicate Like rows are not collapsed: one more Like on an author's tweet raises that author's likesNum by exactly one |
| Queries.FindByPk | controllers/user-controller.js:99 | `findByPk`, which also serves as the Tweet joined to a Like, finds a row iff some row has that id, and the row found is a stored row with that id |
| Queries.AuthorOf | controllers/user-controller.js:130-134 | the included author is the account, name and avatar of the user with that id, or null when no such user is stored |
| Queries.AuthorIsTheUser | controllers/user-controller.js:130-134 | with unique user ids, the author included for a stored user's row is exactly that user's account, name and avatar |
| Sorting.Insert | controllers/user-controller.js:129 | inserting into an ordered sequence keeps it ordered and adds exactly that element |
| Sorting.Sort | controllers/admin-controller.js:47-52 | an `order` clause over a total preorder yields an ordered permutation of its input |
| RoleGate.SignInAs | controllers/user-controller.js:78-88 | a token is issued iff the user's role is the endpoint's role; the response carries the user without password and the token signed over that record; refusal carries the fixed cause |
| RoleGate.SignInIgnoresPassword | controllers/user-controller.js:82-83 | neither the token nor the returned record depends on the stored password |
| Persistence.Database.constructor | controllers/user-controller.js:40-45 | a store whose ids are unique and below the counter, and whose accounts and emails are unique, establishes the table invariants `User.findOne` relies on |
| Persistence.Database.CreateUser | controllers/user-controller.js:53-62 | `User.create` appends exactly one row under the next auto-increment id and leaves the other tables alone |
| UserController.CheckSignUp | controllers/user-controller.js:17-49 | the step-by-step appends to `cause` produce exactly the outcome and messages of the declarative `SignUpCheck` |
| UserController.SignUp | controllers/user-controller.js:14-66 | on failure nothing is written; on success exactly one user is appended with role 'user', the hash of the password, '' or the fixed default URLs for missing optional fields; the table invariants (unique ids, accounts and emails, ids below the counter) hold before and after |
| UserController.EmptyFieldFailsFirst | controllers/user-controller.js:26-33 | a missing required field fails with "Empty input value!" whatever the store holds, and each field's slot has a message iff that field is missing |
| UserController.ImproperErrorsAccumulate | controllers/user-controller.js:36-48 | on a complete form every failed rule sets its own slot: mismatch, name over 50 characters, duplicate account, duplicate email, and the failure message is "Inproper input value!" |
| UserController.SignUpAdmitsExactly | controllers/user-controller.js:36-49 | a complete form passes iff the passwords match, the name has at most 50 characters and no stored user has its account or its email |
| UserController.SignUpAdmitsFreshAccount | controllers/user-controller.js:40-49 | an admitted form is complete and its account and email are new to the store |
| UserController.AllFourFailuresTogether | controllers/user-controller.js:36-48 | a 51-character name, a mismatched confirmation and a taken account and email produce all four messages in one failure |
| UserController.SignIn | controllers/user-controller.js:76-92 | the front-end gate admits a user iff its role is 'user' and returns the record without password |
| UserController.NewAccountSignsIn | controllers/user-controller.js:61-66 | the account sign-up creates passes the front-end gate it is handed to |
| UserController.GetUser | controllers/user-controller.js:94-119 | fails iff no user has the id; otherwise the record without password, followingNum = rows with followerId = id, followerNum = rows with followingId = id |
| UserController.GetUserTweets | controllers/user-controller.js:121-163 | exactly the user's tweets with multiplicity, createdAt descending, each with its author, repliesNum and likesNum as row counts, and isLiked true iff the viewer has a Like row for it |
| UserController.GetUserReplies | controllers/user-controller.js:165-198 | exactly the user's replies with multiplicity, createdAt descending, each with its author and label |
| UserController.GetUserLikes | controllers/user-controller.js:200-243 | fails iff some Like of the user names a missing tweet; otherwise exactly the user's Like rows, newest first, each with its stored tweet, that tweet's counts, and isLiked true, which agrees with the EXISTS test for that user |
| UserController.LikesPresentIff | controllers/user-controller.js:229-236 | the listing's failure condition is exactly a Like of the user whose tweet is not stored |
| AdminController.SignIn | controllers/admin-controller.js:8-24 | the back-office gate admits a user iff its role is 'admin'; otherwise cause accountErrMsg '帳號不存在！' |
| AdminController.GetUsers | controllers/admin-controller.js:26-63 | a permutation of every stored user's row, admins included, without passwords, ordered descending by the four keys, each row carrying its tweet count, likes received, followings and followers |
| AdminController.HigherRankFirst | controllers/admin-controller.js:47-52 | a row with strictly higher keys is always listed above |
| AdminController.FollowersOutrankFollowings | controllers/admin-controller.js:47-52 | with equal tweetsNum and likesNum, more followers ranks higher whatever the followings |
| AdminController.RankingsAgreeOnKeys | controllers/admin-controller.js:47-52 | any two admissible leaderboards have equal keys at every position: only users tied on all four keys can trade places |
| AdminController.GetTweets | controllers/admin-controller.js:65-71 | answers `{}` and leaves the store as it was |
| AdminController.DeleteTweet | controllers/admin-controller.js:73-79 | answers `{}` and leaves the store as it was: the tweet, its replies and its likes remain |

## Left out

- Password hashing (bcrypt, line 52 of the user controller) is a function parameter `hash`. Whether a hash can equal its plaintext is a property of bcrypt and is not modelled.
- JWT signing (line 83 of the user controller, line 15 of the admin controller) is a function parameter `sign` applied to the password-free record. Expiry and the secret are not part of the model.
- The relative-time labels (`dayjs(...).fromNow()`) and the locale setup depend on the wall clock and a library. They are a parameter `fromNow: Time -> string`.
- The two uniqueness lookups of sign-up run concurrently in the source. They are modelled as two reads of one snapshot. The race between two concurrent sign-ups with the same account is not modelled.
- Request and response plumbing is not modelled: `req`, `res`, `next`, status codes and the response envelope. The viewer id from `helpers.getUser(req)` is an explicit parameter. The chaining of sign-up into sign-in through `next()` is covered only by `NewAccountSignsIn`.
- The `if (!user)` failure after `User.create` (line 64 of the user controller) is not modelled. The model's insert always returns the new row.
- The `repliedTo` literal of `getUserReplies` is not modelled. It binds `UserId` ambiguously inside its subquery, so the model covers only that listing's filter, order, author and label.
- Ids are modelled as numbers. Non-numeric path parameters, and SQL text built by interpolating `${UserId}`, are not modelled.
- Body fields are modelled as absent or a string. Other JSON values (numbers, arrays) are not modelled.
- The name limit counts Unicode characters. JavaScript's `length` counts UTF-16 code units, so a name with characters outside the Basic Multilingual Plane can differ.
- Account and email matching uses exact string equality. A store collation that ignores case is not modelled.
- The `createdAt`/`updatedAt` columns of Users are not modelled. Nothing in the core reads them.
- The order of rows tied on their sort keys is left to the database. The model promises none. Its sort keeps table order only as one admissible choice.
- The moderation tweet listing with truncated descriptions, and the cascading tweet deletion, are not implemented by the code. `getTweets` and `deleteTweet` are modelled as the stubs they are.

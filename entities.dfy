/**
 Rows of the five tables the controllers query (Users, Tweets, Replies, Likes,
 Followships), a snapshot of the whole store, and the password-free projection of
 a user that every response carries. Ids are the tables' primary keys; timestamps
 are compared as numbers.
 */
module Entities {

  type Id = nat
  type Time = int

  datatype User = User(
    id: Id,
    account: string,
    name: string,
    email: string,
    password: string,
    introduction: string,
    avatar: string,
    banner: string,
    role: string)

  datatype Tweet = Tweet(id: Id, UserId: Id, description: string, createdAt: Time, updatedAt: Time)

  datatype Reply = Reply(id: Id, UserId: Id, TweetId: Id, comment: string, createdAt: Time, updatedAt: Time)

  datatype Like = Like(id: Id, UserId: Id, TweetId: Id, createdAt: Time, updatedAt: Time)

  /** `followerId` follows `followingId`. */
  datatype Followship = Followship(id: Id, followerId: Id, followingId: Id, createdAt: Time, updatedAt: Time)

  /** The contents of the store as one read sees them. */
  datatype Store = Store(
    users: seq<User>,
    tweets: seq<Tweet>,
    replies: seq<Reply>,
    likes: seq<Like>,
    followships: seq<Followship>)

  const UserRole := "user"
  const AdminRole := "admin"

  /** A user record with its `password` key deleted. */
  datatype PublicUser = PublicUser(
    id: Id,
    account: string,
    name: string,
    email: string,
    introduction: string,
    avatar: string,
    banner: string,
    role: string)

  function WithoutPassword(u: User): (p: PublicUser) {
    PublicUser(u.id, u.account, u.name, u.email, u.introduction, u.avatar, u.banner, u.role)
  }

  /** Deleting the password loses exactly the password: two users project to the
      same public record iff they differ at most in their password. */
  lemma WithoutPasswordForgetsOnlyPassword(u: User, v: User)
    ensures WithoutPassword(u) == WithoutPassword(v) <==> u.(password := v.password) == v
  {
  }

  /** The author columns a listing joins in (`attributes: ['account', 'name', 'avatar']`). */
  datatype Author = Author(account: string, name: string, avatar: string)

  function AuthorColumns(u: User): (a: Author) {
    Author(u.account, u.name, u.avatar)
  }

  /** Primary keys are unique within a table. */
  predicate UniqueUserIds(users: seq<User>) {
    forall i, j :: 0 <= i < j < |users| ==> users[i].id != users[j].id
  }

  predicate UniqueTweetIds(tweets: seq<Tweet>) {
    forall i, j :: 0 <= i < j < |tweets| ==> tweets[i].id != tweets[j].id
  }
}

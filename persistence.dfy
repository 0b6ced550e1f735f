/**
 The store as mutable state. Only the Users table is written by the modelled core
 (`User.create` during sign-up); tables are sequences the methods reassign and
 `nextUserId` is the Users table's auto-increment counter.
 */
module Persistence {
  import opened Entities

  /** The Users table's primary key, unique indices and auto-increment counter:
      every id is below `counter`; ids, accounts and emails are pairwise distinct. */
  predicate WellFormedUsers(users: seq<User>, counter: Id) {
    && (forall i :: 0 <= i < |users| ==> users[i].id < counter)
    && (forall i, j :: 0 <= i < j < |users| ==>
          users[i].id != users[j].id && users[i].account != users[j].account && users[i].email != users[j].email)
  }

  class Database {
    var users: seq<User>
    var tweets: seq<Tweet>
    var replies: seq<Reply>
    var likes: seq<Like>
    var followships: seq<Followship>
    var nextUserId: Id

    /** What a read issued now would see. */
    function Snapshot(): (st: Store)
      reads this
    {
      Store(users, tweets, replies, likes, followships)
    }

    /** The table invariants: every id is below the counter; ids, accounts and emails
        are pairwise distinct. */
    ghost predicate Valid()
      reads this
    {
      WellFormedUsers(users, nextUserId)
    }

    constructor (s: Store, counter: Id)
      requires WellFormedUsers(s.users, counter)
      ensures Snapshot() == s && nextUserId == counter
      ensures Valid()
    {
      users, tweets, replies, likes, followships := s.users, s.tweets, s.replies, s.likes, s.followships;
      nextUserId := counter;
    }

    /** `User.create`: insert one row under the next auto-increment id. */
    method CreateUser(account: string, name: string, email: string, password: string,
                      introduction: string, avatar: string, banner: string, role: string)
      returns (u: User)
      modifies this
      ensures u == User(old(nextUserId), account, name, email, password, introduction, avatar, banner, role)
      ensures users == old(users) + [u] && nextUserId == old(nextUserId) + 1
      ensures tweets == old(tweets) && replies == old(replies) && likes == old(likes) && followships == old(followships)
    {
      u := User(nextUserId, account, name, email, password, introduction, avatar, banner, role);
      users := users + [u];
      nextUserId := nextUserId + 1;
    }
  }
}

/** Sequences of requests against one store, and what a client can conclude
    about them from the handlers' contracts alone. */
module Scenarios {
  import opened Records
  import opened KeyedSeq
  import opened Handlers

  /** Register a user with a fresh identifier, look it up, delete it, look it up again. */
  method SignupShowDelete(store: Store, u: UserRegister)
    returns (shown: Outcome<UserRegister>, deleted: Outcome<UserRegister>, again: Outcome<UserRegister>)
    requires ValidRegister(u)
    requires Find(store.users, UserKey, u.userId).None?
    modifies store
    ensures shown == Ok(u) && deleted == Ok(u) && again == NotFound
    ensures store.users == old(store.users) && store.tweets == old(store.tweets)
  {
    ghost var before := store.users;
    var _ := store.Signup(u);
    FindAfterAppend(before, UserKey, u.userId, u);
    shown := store.ShowAUser(u.userId);
    deleted := store.DeleteAUser(u.userId);
    assert RemoveAt(before + [u], |before|) == before;
    again := store.ShowAUser(u.userId);
  }

  /** Post a tweet with a fresh identifier, update the author's user record, then
      update the tweet and look it up: the new content and time show, while the
      tweet's copy of its author is still the one taken at posting time. */
  method PostUpdateShow(store: Store, t: Tweet, replacement: User, upd: TweetUpdate)
    returns (shown: Outcome<Tweet>)
    requires ValidTweet(t) && ValidUser(replacement) && ValidTweetUpdate(upd)
    requires Find(store.tweets, TweetKey, t.tweetId).None?
    modifies store
    ensures shown.Ok?
    ensures shown.value.content == upd.content && shown.value.updatedAt == Some(upd.updatedAt)
    ensures shown.value.tweetId == t.tweetId && shown.value.createdAt == t.createdAt
    ensures shown.value.author == t.author
  {
    ghost var before := store.tweets;
    var _ := store.Post(t);
    FindAfterAppend(before, TweetKey, t.tweetId, t);
    var _ := store.UpdateAUser(t.author.userId, replacement);
    var _ := store.UpdateATweet(t.tweetId, upd);
    FindAfterReplace(before + [t], TweetKey, t.tweetId, |before|, UpdateTweetFields(t, upd));
    shown := store.ShowATweet(t.tweetId);
  }
}

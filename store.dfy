/** The eleven request handlers, with the two JSON files "users.json" and
    "tweets.json" as two fields of one object. Each handler reads a whole
    collection, scans it front to back and, when it changes something, writes
    the whole collection back; here that is one reassignment of the field. */
module Handlers {
  import opened Records
  import opened KeyedSeq

  class Store {
    /** The decoded contents of users.json, in file order. */
    var users: seq<UserRegister>
    /** The decoded contents of tweets.json, in file order. */
    var tweets: seq<Tweet>

    /** Every stored record passed the request models' length checks. This is
        a property the handlers preserve, not one they rely on: nothing
        demands it of the files, the constructor does not establish it, and
        every handler that writes keeps it when it held before. */
    ghost predicate Valid()
      reads this
    {
      && (forall u :: u in users ==> ValidRegister(u))
      && (forall t :: t in tweets ==> ValidTweet(t))
    }

    constructor (users0: seq<UserRegister>, tweets0: seq<Tweet>)
      ensures users == users0 && tweets == tweets0
    {
      users := users0;
      tweets := tweets0;
    }

    // Users

    /** Register a user: its record, password included, goes at the end of the file. */
    method Signup(user: UserRegister) returns (r: UserRegister)
      requires ValidRegister(user)
      modifies this`users
      ensures users == old(users) + [user]
      ensures r == user
      ensures old(Valid()) ==> Valid()
    {
      var results := users;
      results := results + [user];
      users := results;
      r := user;
    }

    /** Log in: the first stored user whose e-mail and password both equal the
        arguments; a record that matches on only one of the two never answers. */
    method Login(email: string, password: string) returns (r: Outcome<UserRegister>)
      ensures r.Ok? <==> exists i :: 0 <= i < |users| && users[i].email == email && users[i].password == password
      ensures r.Ok? ==> r.value.email == email && r.value.password == password
      ensures match Find(users, Credentials, (email, password))
        case Some(i) => r == Ok(users[i])
        case None => r == NotFound
    {
      var loggedIn: Option<UserRegister> := None;
      var allUsers := users;
      var i := 0;
      while i < |allUsers|
        invariant 0 <= i <= |allUsers|
        invariant forall j :: 0 <= j < i ==> Credentials(allUsers[j]) != (email, password)
        invariant loggedIn.None?
      {
        var user := allUsers[i];
        if user.email == email && user.password == password {
          loggedIn := Some(user);
          break;
        }
        i := i + 1;
      }
      if loggedIn.None? {
        return NotFound;
      }
      r := Ok(loggedIn.value);
    }

    /** Show all users: the file's contents as they are, in file order. */
    method ShowAllUsers() returns (r: seq<UserRegister>)
      ensures r == users
    {
      r := users;
    }

    /** Show a user: the first stored user with the given identifier. */
    method ShowAUser(userId: Id) returns (r: Outcome<UserRegister>)
      ensures r.Ok? ==> r.value in users && r.value.userId == userId
      ensures r.NotFound? <==> forall u :: u in users ==> u.userId != userId
      ensures match Find(users, UserKey, userId)
        case Some(i) => r == Ok(users[i])
        case None => r == NotFound
    {
      var allUsers := users;
      var i := 0;
      while i < |allUsers|
        invariant 0 <= i <= |allUsers|
        invariant forall j :: 0 <= j < i ==> UserKey(allUsers[j]) != userId
      {
        var user := allUsers[i];
        if user.userId == userId {
          return Ok(user);
        }
        i := i + 1;
      }
      r := NotFound;
    }

    /** Delete a user: the first stored user with the given identifier is
        removed and returned; the others stay, in order. Without a match the
        file is left as it was. */
    method DeleteAUser(userId: Id) returns (r: Outcome<UserRegister>)
      modifies this`users
      ensures match Find(old(users), UserKey, userId)
        case Some(i) => r == Ok(old(users)[i]) && users == RemoveAt(old(users), i)
        case None => r == NotFound && users == old(users)
      ensures r.Ok? ==> |users| == |old(users)| - 1
      ensures old(Valid()) ==> Valid()
    {
      var deleted: Option<UserRegister> := None;
      var allUsers := users;
      var i := 0;
      while i < |allUsers|
        invariant 0 <= i <= |allUsers|
        invariant forall j :: 0 <= j < i ==> UserKey(allUsers[j]) != userId
        invariant deleted.None?
      {
        var user := allUsers[i];
        if user.userId == userId {
          deleted := Some(user);
          break;
        }
        i := i + 1;
      }
      if deleted.None? {
        return NotFound;
      }
      ListRemoveFirstMatch(allUsers, UserKey, userId, i);
      RemoveAtSubset(allUsers, i);
      allUsers := ListRemove(allUsers, deleted.value);
      users := allUsers;
      r := Ok(deleted.value);
    }

    /** Update a user: the first stored user with the given identifier gets
        every public field (identifier included) from the replacement and keeps
        its password; every other record is untouched. Without a match the
        file is left as it was. */
    method UpdateAUser(userId: Id, replacement: User) returns (r: Outcome<UserRegister>)
      requires ValidUser(replacement)
      modifies this`users
      ensures match Find(old(users), UserKey, userId)
        case Some(i) =>
          && r == Ok(UpdateUserFields(old(users)[i], replacement))
          && users == old(users)[i := UpdateUserFields(old(users)[i], replacement)]
        case None => r == NotFound && users == old(users)
      ensures |users| == |old(users)|
      ensures old(Valid()) ==> Valid()
    {
      var updated: Option<UserRegister> := None;
      var allUsers := users;
      var i := 0;
      while i < |allUsers|
        invariant 0 <= i <= |allUsers|
        invariant forall j :: 0 <= j < i ==> UserKey(allUsers[j]) != userId
        invariant updated.None?
        invariant allUsers == users
      {
        var user := allUsers[i];
        if user.userId == userId {
          user := user.(userId := replacement.userId);
          user := user.(firstName := replacement.firstName);
          user := user.(lastName := replacement.lastName);
          user := user.(birthDate := replacement.birthDate);
          user := user.(email := replacement.email);
          allUsers := allUsers[i := user];
          updated := Some(user);
          break;
        }
        i := i + 1;
      }
      if updated.None? {
        return NotFound;
      }
      assert users[i] in users;
      assert forall u :: u in allUsers ==> u == updated.value || u in users;
      users := allUsers;
      r := Ok(updated.value);
    }

    // Tweets

    /** Show all tweets: the file's contents as they are, in file order. */
    method Home() returns (r: seq<Tweet>)
      ensures r == tweets
    {
      r := tweets;
    }

    /** Post a tweet: the tweet, with its copy of the author, goes at the end of the file. */
    method Post(tweet: Tweet) returns (r: Tweet)
      requires ValidTweet(tweet)
      modifies this`tweets
      ensures tweets == old(tweets) + [tweet]
      ensures r == tweet
      ensures old(Valid()) ==> Valid()
    {
      var results := tweets;
      results := results + [tweet];
      tweets := results;
      r := tweet;
    }

    /** Show a tweet: the first stored tweet with the given identifier. */
    method ShowATweet(tweetId: Id) returns (r: Outcome<Tweet>)
      ensures r.Ok? ==> r.value in tweets && r.value.tweetId == tweetId
      ensures r.NotFound? <==> forall t :: t in tweets ==> t.tweetId != tweetId
      ensures match Find(tweets, TweetKey, tweetId)
        case Some(i) => r == Ok(tweets[i])
        case None => r == NotFound
    {
      var allTweets := tweets;
      var i := 0;
      while i < |allTweets|
        invariant 0 <= i <= |allTweets|
        invariant forall j :: 0 <= j < i ==> TweetKey(allTweets[j]) != tweetId
      {
        var tweet := allTweets[i];
        if tweet.tweetId == tweetId {
          return Ok(tweet);
        }
        i := i + 1;
      }
      r := NotFound;
    }

    /** Delete a tweet: the first stored tweet with the given identifier is
        removed and returned; the others stay, in order. Without a match the
        file is left as it was. */
    method DeleteATweet(tweetId: Id) returns (r: Outcome<Tweet>)
      modifies this`tweets
      ensures match Find(old(tweets), TweetKey, tweetId)
        case Some(i) => r == Ok(old(tweets)[i]) && tweets == RemoveAt(old(tweets), i)
        case None => r == NotFound && tweets == old(tweets)
      ensures r.Ok? ==> |tweets| == |old(tweets)| - 1
      ensures old(Valid()) ==> Valid()
    {
      var deleted: Option<Tweet> := None;
      var allTweets := tweets;
      var i := 0;
      while i < |allTweets|
        invariant 0 <= i <= |allTweets|
        invariant forall j :: 0 <= j < i ==> TweetKey(allTweets[j]) != tweetId
        invariant deleted.None?
      {
        var tweet := allTweets[i];
        if tweet.tweetId == tweetId {
          deleted := Some(tweet);
          break;
        }
        i := i + 1;
      }
      if deleted.None? {
        return NotFound;
      }
      ListRemoveFirstMatch(allTweets, TweetKey, tweetId, i);
      RemoveAtSubset(allTweets, i);
      allTweets := ListRemove(allTweets, deleted.value);
      tweets := allTweets;
      r := Ok(deleted.value);
    }

    /** Update a tweet: the first stored tweet with the given identifier gets
        the new content and updatedAt; its identifier, createdAt and author
        copy, and every other tweet, are untouched. Without a match the file
        is left as it was. */
    method UpdateATweet(tweetId: Id, upd: TweetUpdate) returns (r: Outcome<Tweet>)
      requires ValidTweetUpdate(upd)
      modifies this`tweets
      ensures match Find(old(tweets), TweetKey, tweetId)
        case Some(i) =>
          && r == Ok(UpdateTweetFields(old(tweets)[i], upd))
          && tweets == old(tweets)[i := UpdateTweetFields(old(tweets)[i], upd)]
        case None => r == NotFound && tweets == old(tweets)
      ensures |tweets| == |old(tweets)|
      ensures old(Valid()) ==> Valid()
    {
      var updated: Option<Tweet> := None;
      var allTweets := tweets;
      var i := 0;
      while i < |allTweets|
        invariant 0 <= i <= |allTweets|
        invariant forall j :: 0 <= j < i ==> TweetKey(allTweets[j]) != tweetId
        invariant updated.None?
        invariant allTweets == tweets
      {
        var tweet := allTweets[i];
        if tweet.tweetId == tweetId {
          tweet := tweet.(content := upd.content);
          tweet := tweet.(updatedAt := Some(upd.updatedAt));
          allTweets := allTweets[i := tweet];
          updated := Some(tweet);
          break;
        }
        i := i + 1;
      }
      if updated.None? {
        return NotFound;
      }
      assert tweets[i] in tweets;
      assert forall t :: t in allTweets ==> t == updated.value || t in tweets;
      tweets := allTweets;
      r := Ok(updated.value);
    }
  }
}

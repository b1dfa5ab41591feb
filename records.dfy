/** The records of the two collections, "users" and "tweets", as the handlers
    see them once a JSON file has been decoded: identifiers, dates and
    timestamps are opaque strings, an absent optional value is None. */
module Records {

  datatype Option<+T> = None | Some(value: T)

  /** What a handler answers: the record it found, or the 404 it raises. */
  datatype Outcome<+T> = Ok(value: T) | NotFound

  type Id = string
  type Date = string
  type Timestamp = string

  /** The public user model: identifier, e-mail, names and optional birth date. */
  datatype User = User(
    userId: Id,
    email: string,
    firstName: string,
    lastName: string,
    birthDate: Option<Date>)

  /** A user as registered and persisted: the public fields plus the plain-text password. */
  datatype UserRegister = UserRegister(
    userId: Id,
    email: string,
    firstName: string,
    lastName: string,
    birthDate: Option<Date>,
    password: string)

  /** A tweet; `author` (the source's `by`, a Dafny keyword) is a copy of its author's public record taken when it was posted. */
  datatype Tweet = Tweet(
    tweetId: Id,
    content: string,
    createdAt: Timestamp,
    updatedAt: Option<Timestamp>,
    author: User)

  /** The body of a tweet update: new content and the time of the change. */
  datatype TweetUpdate = TweetUpdate(content: string, updatedAt: Timestamp)

  /** The public part of a stored user, the fields a user update replaces. */
  function Public(u: UserRegister): User {
    User(u.userId, u.email, u.firstName, u.lastName, u.birthDate)
  }

  // Keys the handlers scan on.

  function UserKey(u: UserRegister): Id { u.userId }

  function TweetKey(t: Tweet): Id { t.tweetId }

  /** Login matches on e-mail and password together. */
  function Credentials(u: UserRegister): (string, string) { (u.email, u.password) }

  /** The stored user after a user update: every public field comes from the
      replacement, the password is the one already stored. */
  function UpdateUserFields(u: UserRegister, replacement: User): (r: UserRegister)
    ensures Public(r) == replacement
    ensures r.password == u.password
  {
    u.(userId := replacement.userId,
       firstName := replacement.firstName,
       lastName := replacement.lastName,
       birthDate := replacement.birthDate,
       email := replacement.email)
  }

  /** The stored tweet after a tweet update: only content and updatedAt change. */
  function UpdateTweetFields(t: Tweet, upd: TweetUpdate): (r: Tweet)
    ensures r.content == upd.content && r.updatedAt == Some(upd.updatedAt)
    ensures r.tweetId == t.tweetId && r.createdAt == t.createdAt && r.author == t.author
  {
    t.(content := upd.content, updatedAt := Some(upd.updatedAt))
  }

  // Length bounds the request models enforce before a handler runs.

  predicate NameOk(s: string) { 1 <= |s| <= 50 }

  predicate PasswordOk(s: string) { 8 <= |s| <= 64 }

  predicate ContentOk(s: string) { 1 <= |s| <= 256 }

  predicate ValidUser(u: User) { NameOk(u.firstName) && NameOk(u.lastName) }

  predicate ValidRegister(u: UserRegister) { ValidUser(Public(u)) && PasswordOk(u.password) }

  predicate ValidTweet(t: Tweet) { ContentOk(t.content) && ValidUser(t.author) }

  predicate ValidTweetUpdate(upd: TweetUpdate) { ContentOk(upd.content) }
}

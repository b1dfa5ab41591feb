# Twitter API (FastAPI) — a Dafny model of its request handlers

The service keeps two collections: users in `users.json` and tweets in
`tweets.json`. Each file holds a JSON array of records. Every request handler
in `main.py` reads a whole collection and then does one of five things:

- answer with the whole collection as stored (show all users, show all tweets);
- append one record at the end (signup, post);
- scan front to back and answer with the first match (login, show a user, show a tweet);
- scan front to back and remove the first match (delete a user, delete a tweet);
- scan front to back and overwrite some fields of the first match (update a user, update a tweet).

When a handler changes anything, it writes the whole collection back.

This model keeps that in-memory logic and drops the file and JSON plumbing:

- `records.dfy` (module `Records`) holds the records. `User` is the public user
  model. `UserRegister` is the stored user: the public fields plus the
  plain-text password. `Tweet` embeds a copy of its author's `User`; the field
  is called `author` because `by` is a Dafny keyword. `TweetUpdate` is the
  body of a tweet update. The module also holds the two field updates and the
  length bounds that the request models check before a handler runs.
- `keyed_seq.dfy` (module `KeyedSeq`) holds the collection logic shared by
  all handlers. `Find` is the first-match scan. `RemoveAt` removes one index.
  `ListRemove` is Python's `list.remove`. The lemmas relate lookups to
  appends, removals and replacements.
- `store.dfy` (module `Handlers`) models the eleven handlers as methods of a
  class `Store`. The fields `users` and `tweets` stand for the two files. The
  `for … break` scans are `while` loops with invariants. Each mutation is one
  reassignment of a field, which models the whole-file rewrite. The six
  handlers that scan answer with `Outcome`: `Ok(record)`, or `NotFound` for
  the 404 they raise. Signup and post answer with their input record, and the
  two show-all handlers with the stored sequence.
- `scenarios.dfy` (module `Scenarios`) holds two client request sequences.
  Their results follow from the handlers' contracts alone.

Identifiers, dates and timestamps are opaque strings. A missing
`birth_date` or `updated_at` is `None`.

Login succeeds only when one stored record matches e-mail and password
together (main.py:146-154). Its single 404 message does not say which field
failed; `Handlers.Store.Login` states both directions of that.

## Model

| member | source | states |
|---|---|---|
| `KeyedSeq.Find` | main.py:212-219 | The result is the index of the first record whose key equals the argument: every earlier record has a different key. The result is None exactly when no record has that key. |
| `KeyedSeq.RemoveAt` | main.py:260 | The result is one shorter. Records before index i keep their places. Records after i move down by one. |
| `KeyedSeq.ListRemove` | main.py:260 | Python's `list.remove(x)` on a list that contains x. The result is one shorter, and its multiset is the input's minus one copy of x. It is exactly the input with the first position holding x removed, the others kept in order. |
| `KeyedSeq.ListRemoveFirstMatch` | main.py:249-260 | Removing by value the record that the scan found first by key is the same as removing its index. Each earlier record has another key, so none of them equals it. |
| `KeyedSeq.FindAfterAppend` | main.py:106-110 | After an append, a lookup gives the same answer as before when the key was already present. Otherwise it finds the new last record when that record carries the key, and finds nothing when it does not. |
| `KeyedSeq.FindAfterReplace` | main.py:502-507 | Overwriting the first match of k with a record that has the same key leaves the lookup of k on the same index. |
| `KeyedSeq.FindAfterRemove` | main.py:249-264 | When keys are unique, removing the record found for k leaves no record with key k. |
| `KeyedSeq.RemoveAtKeepsUnique` | main.py:260-263 | Removing a record keeps keys unique. |
| `KeyedSeq.AppendKeepsUnique` | main.py:106-110 | Appending keeps keys unique if and only if no stored record already has the new record's key. |
| `KeyedSeq.ReplaceKeepsUnique` | main.py:297-305 | A user update can change a record's identifier. Keys stay unique when no other record has the new identifier. |
| `Records.UpdateUserFields` | main.py:299-303 | The public part of the updated user is exactly the replacement, identifier included. The password is the stored one. |
| `Records.UpdateTweetFields` | main.py:504-505 | The updated tweet has the new content and `updatedAt = Some(time)`. Its identifier, `createdAt` and author copy are the old ones. |
| `Handlers.Store.constructor` | main.py:104-106 | The store starts with the given decoded contents of the two files. |
| `Handlers.Store.Signup` | main.py:104-115 | The new record, password included, is appended: the users are the old ones, in order, plus it at the end. The input is returned. Stored-record validity is kept. |
| `Handlers.Store.Login` | main.py:143-155 | Success holds exactly when some stored user matches both e-mail and password. The answer is the first such user in file order. Otherwise the answer is NotFound. |
| `Handlers.Store.ShowAllUsers` | main.py:181-183 | Returns the stored users verbatim, in file order. |
| `Handlers.Store.ShowAUser` | main.py:210-219 | Returns the first stored user with the identifier. NotFound holds exactly when no stored user has it. Nothing is changed. |
| `Handlers.Store.DeleteAUser` | main.py:246-264 | On a match, returns the first matching record. The users become the old ones with exactly that index removed, so the length drops by one and order is kept. Without a match, returns NotFound and leaves the users unchanged. |
| `Handlers.Store.UpdateAUser` | main.py:294-316 | On a match, only the first matching record changes: its public fields come from the replacement and its password stays. That record is returned. Without a match, returns NotFound and leaves the users unchanged. The length never changes. |
| `Handlers.Store.Home` | main.py:344-346 | Returns the stored tweets verbatim, in file order. |
| `Handlers.Store.Post` | main.py:373-390 | The tweet, with its author copy, is appended: the tweets are the old ones, in order, plus it at the end. The input is returned. |
| `Handlers.Store.ShowATweet` | main.py:417-426 | Returns the first stored tweet with the identifier. NotFound holds exactly when no stored tweet has it. Nothing is changed. |
| `Handlers.Store.DeleteATweet` | main.py:454-472 | On a match, returns the first matching tweet. The tweets become the old ones with exactly that index removed. Without a match, returns NotFound and leaves the tweets unchanged. |
| `Handlers.Store.UpdateATweet` | main.py:499-518 | On a match, only the first matching tweet changes: its content and `updatedAt` are overwritten. That tweet is returned. Without a match, returns NotFound and leaves the tweets unchanged. |
| `Scenarios.SignupShowDelete` | main.py:104-264 | Sign up a user whose identifier no stored user has. The lookup returns it, delete returns it, and a second lookup gives NotFound. The users end as they started. |
| `Scenarios.PostUpdateShow` | main.py:373-518 | Post a tweet with a new identifier, update its author's user record, then update the tweet. The lookup shows the new content and time, and the author copy taken at posting time. |

## Left out

- Reading and writing `users.json` and `tweets.json` (`open`, `seek`, `truncate`, `write`) and `json.loads`/`json.dumps` are not modelled. Each collection is a field that a handler reads whole and replaces whole. Signup and post write without truncating. A file could keep trailing bytes if its re-serialised text were shorter than the old text. That is file-level behaviour and is not modelled.
- The `str(...)` conversions of identifiers, dates and timestamps are not modelled. The string `"None"` stored for a missing birth date is not modelled either. Identifiers, dates and timestamps are opaque strings here, and a missing value is `None`.
- Pydantic validation (main.py:25-73) is reduced to its length bounds. Names are 1–50 characters, passwords 8–64, and tweet content 1–256. These bounds are preconditions on handler inputs, and `Store.Valid` says every stored record meets them. E-mail syntax and UUID parsing are foreign library behaviour and are not modelled.
- The `datetime.now()` defaults, which are evaluated once at import (main.py:63, main.py:73), are not modelled because they depend on the clock. A caller passes every timestamp explicitly.
- FastAPI routing and status codes are not modelled. Neither is the `response_model` filtering that removes the password from responses. In the model, handlers answer with the stored `UserRegister` record, password included. The framework's filtering step is not part of this model.
- Python's truthiness test on the scan result (`if not user_logged_in`) is modelled as `Option`. A found record is a non-empty dict, so it is always truthy.
- Concurrent requests are not modelled. The source has no locking, and each handler here runs to completion before the next.

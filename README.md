# rustwi core in Dafny

A model of the domain and service core of rustwi, a small Twitter-like web
application written in Rust. Users register, sign in, post tweets, read a
timeline and delete tweets. The model covers three pieces:

- **The Tweet entity** (`tweet.dfy`). A tweet has an optional identity, a
  message, a posting time, an author identity and a `deleted` flag. It has two
  factories (`new` for a stored tweet, `create` for a new one), two accessors,
  and one mutation, `delete`. Tweets are Rust values that are owned and never
  shared, so the entity is a datatype. `delete(&mut self)` on a local becomes
  `t := t.Delete()`.
- **The tweet services** (`tweet_service.dfy`): `list_tweets`, `create_tweet`
  and `delete_tweet`. They are written against the `Tweets` repository
  (`tweets_repository.dfy`). The repository is a class that answers `find` from
  a map keyed by identity and `list` from a sequence. It records every `store`
  call in a ghost log, which is how the source's unit tests observe the
  services.
- **The account services and the session cookie** (`account_service.dfy`,
  `account.dfy`, `accounts_repository.dfy`, `sessions.dfy`,
  `session_token.dfy`):
  - `create_account` stores an account built from a plaintext password.
  - `create_session` looks the account up by email and compares password
    digests. On a match it hands a seven-day session holding the account's
    identity to the session store, and wraps the cookie value the store
    answers with in a `SessionToken`.
  - `SessionToken::new`, `clear` and `cookie` render the fixed cookie format
    `<name>=<token>; Max-Age=<seconds>; Path=/; HttpOnly`.

Supporting modules:

- `base.dfy`: `i32`, `Option` and `Outcome`. `Outcome` records a panic at the
  two `unwrap()` points of `create_session` the model keeps
  (`src/services/accounts.rs:30` and `src/services/accounts.rs:34`); the
  other ones are under "## Left out".
- `decimal.dfy`: decimal and zero-padded numerals, with their inverse.
- `timestamps.dfy`: the `YYYY/MM/DD HH:MM` rendering of a tweet's time.
- `scenarios.dfy`: replays each unit test of the two service files against the
  model.

Abstractions:

- SHA-256 is the parameter `hash: string -> string`. Password matching is
  `hash(password) == hashedPassword`, which is how the test fixture builds an
  account.
- `Utc::now()` is the parameter `now`.
- The session store is an oracle. It is given the answers for successive
  `store_session` calls in advance. `None`, or running out of answers, is a
  failed store.

How the model reads the code:

- `list_tweets` takes only the tweets repository, so the model has no join
  with accounts. The `list_tweets` test observes each row's message and
  rendered time; the model's row has those two fields.
- `create_tweet` calls `Tweet::create(message)` with one argument
  (`src/services/tweets.rs:13`). The entity's `create` takes
  `(message, posted_by)` (`src/entities/tweet.rs:22`). The model follows the
  entity, so `CreateTweet` takes an explicit `postedBy`. The test fixture
  `tweet(id)` passes no author to `Tweet::new`; the scenarios use author 1.

## Model

| member | source | states |
|---|---|---|
| `TweetEntity.Tweet.New` | src/entities/tweet.rs:12-20 | the tweet has identity `Some(id)`, the given message, time and author, and is not deleted |
| `TweetEntity.Tweet.Create` | src/entities/tweet.rs:22-30 | the tweet has no identity, the given message and author, the current time, and is not deleted |
| `TweetEntity.Tweet.Delete` | src/entities/tweet.rs:32-42 | afterwards `IsDeleted()` holds, and identity, message, time and author are those of the tweet before |
| `TweetEntity.DeleteIdempotent` | src/entities/tweet.rs:40-42 | deleting twice gives the same tweet as deleting once |
| `TweetsRepository.TweetsRepo.constructor` | src/services/tweets.rs:40-94 | a repository that answers `find` and `list` from the given data and has seen no `store` |
| `TweetsRepository.TweetsRepo.Find` | src/services/tweets.rs:18 | `find(id)` answers exactly when a tweet is registered under `id`, and answers with that tweet |
| `TweetsRepository.TweetsRepo.List` | src/services/tweets.rs:6 | `list()` answers with the listed tweets in order |
| `TweetsRepository.TweetsRepo.Store` | src/services/tweets.rs:14-21 | a `store` call appends its tweet to the log of store calls and changes nothing else |
| `TweetService.ListTweets` | src/services/tweets.rs:5-10 | one row per listed tweet, in the same order, with that tweet's message and its time rendered `YYYY/MM/DD HH:MM`; that text reads back as the tweet's time; no tweets gives no rows |
| `TweetService.CreateTweet` | src/services/tweets.rs:12-15 | exactly one `store`, of a tweet with no identity, the given message and author, the current time, and no deletion mark |
| `TweetService.DeleteTweet` | src/services/tweets.rs:17-23 | no `store` when `find(id)` answers nothing; otherwise exactly one, of the found tweet marked deleted with identity, message, time and author unchanged; that identity is `Some(id)` when the repository keys tweets by identity |
| `Timestamps.DisplayRoundTrip` | src/services/tweets.rs:47-49 | a well-formed time renders in sixteen characters that parse back to the same time |
| `Timestamps.DisplayInjective` | src/services/tweets.rs:47-49 | two different well-formed times never render alike |
| `Timestamps.DisplayNewYear2020` | src/services/tweets.rs:36-49 | 2020-01-01 00:00 renders as `2020/01/01 00:00` |
| `Decimal.NatToString` | src/services/accounts.rs:68-73 | the rendering of a number is a non-empty string of digits, one digit exactly for numbers below ten, led by `0` only for zero |
| `Decimal.ParseNatIff` | src/services/accounts.rs:68-73 | a string parses as the canonical numeral of `n` exactly when it is the rendering of `n` |
| `Decimal.PadLeftFaithful` | src/services/tweets.rs:49 | a zero-padded field that fits has exactly its width and holds the number it was given |
| `AccountEntity.Account.New` | src/services/accounts.rs:83-90 | a stored account with identity `Some(id)` and the given email, digest and display name |
| `AccountEntity.Account.Create` | src/services/accounts.rs:9-10 | a new account with no identity, the given email and display name, and the digest of the password in place of the plaintext |
| `AccountEntity.CreatedAccountMatches` | src/services/accounts.rs:21-23 | a new account accepts its own password, and accepts another one exactly when the two digests collide |
| `AccountsRepository.AccountsRepo.constructor` | src/repositories/accounts.rs:5-8 | a repository that answers `find_by` from the given accounts and has seen no `store` |
| `AccountsRepository.AccountsRepo.FindBy` | src/repositories/accounts.rs:6 | `find_by(email)` answers exactly when an account is registered under that email, and answers with that account |
| `AccountsRepository.AccountsRepo.Store` | src/repositories/accounts.rs:7 | a `store` call appends its account to the log of store calls and changes nothing else |
| `AccountService.CreateAccount` | src/services/accounts.rs:9-12 | exactly one `store`, of an account with no identity, the given email and display name, the digest of the password, and accepting that password |
| `Sessions.SessionStore.constructor` | src/services/accounts.rs:25-26 | a session store with the given answers that has saved nothing |
| `Sessions.SessionStore.StoreSession` | src/services/accounts.rs:34 | the session is recorded, and the answer is the next scripted one (none left: a failure) |
| `AccountService.CreateSession` | src/services/accounts.rs:14-40 | no session exactly when the email is unknown or the password digest differs, and then the session store is untouched; a panic exactly when an accepted account has no identity; otherwise one session whose only entry is the account's identity under the user-id key, with a 604800-second lifetime, is stored and the store's first answer is consumed; a token exactly when the credentials are good, the account has an identity and the store answers with a cookie value, which is the token's value |
| `AccountService.ClearSession` | src/services/accounts.rs:42-44 | the token is `deleted` with lifetime 0, and its cookie contains `=deleted` and `Max-Age=0` |
| `SessionTokens.SessionToken.New` | src/services/accounts.rs:52-57 | the token keeps the cookie value and lives 604800 seconds |
| `SessionTokens.SessionToken.Clear` | src/services/accounts.rs:59-64 | the token is `deleted` with lifetime 0 |
| `SessionTokens.ParseCookieIff` | src/services/accounts.rs:68-73 | a cookie string parses to a token exactly when it is that token's rendering and the token holds no `;` |
| `SessionTokens.RenderRoundTrip` | src/services/accounts.rs:68-73 | under any cookie name, the cookie of a token without `;` parses back to the same token and lifetime |
| `SessionTokens.CookieRoundTrip` | src/services/accounts.rs:68-73 | the cookie of a token without `;` parses back to the same token and lifetime |
| `SessionTokens.RenderNewPrefix` | src/services/accounts.rs:52-73 | under any cookie name, an issued token's cookie starts with `<name>=<token>; Max-Age=604800;` |
| `SessionTokens.NewCookiePrefix` | src/services/accounts.rs:52-73 | an issued token's cookie starts with `<name>=<token>; Max-Age=604800;` |
| `SessionTokens.RenderClearEvicts` | src/services/accounts.rs:59-73 | under any cookie name, the clearing cookie contains `=deleted` and `Max-Age=0` |
| `SessionTokens.ClearCookieEvicts` | src/services/accounts.rs:59-73 | the clearing cookie contains `=deleted` and `Max-Age=0` |

## Left out

- HTTP controllers, routing, form extraction and redirects (`src/controllers/*.rs`): this is the HTTP layer, not the core. The auto-sign-in after sign-up happens there.
- Connection-pool bootstrap (`src/database.rs`), module declarations (`src/lib.rs`) and the tagging script (`tagging.py`): none of them carries domain logic.
- The relational repository (`src/repos_impl/tweets.rs`): it runs SQL, orders by `posted_at` in the database, and its `store` only inserts and swallows errors. The model keeps to the abstract repository contract.
- What `store` does to the repositories' contents, such as assigning identities, inserting or deleting rows, or making a stored tweet visible to a later `find`. As in the source's tests, the repositories answer from fixed data and only record `store` calls.
- SHA-256 itself: it is the parameter `hash`.
- `Utc::now()`: it is the parameter `now`.
- `async`/`await`: the services are sequential.
- The session store's construction from the database URL (`src/services/accounts.rs:25-26`): the model assumes it succeeds. The source panics if it fails, and the model does not include that panic.
- `session.insert(..).unwrap()`: inserting an `i32` cannot fail to serialise, so this panic is not modelled. Session ids, the JSON encoding of entries, and absolute expiry instants are also left out; `expiresIn` is the relative lifetime in seconds.
- `src/entities/account.rs` is not part of this model. `Account` is rebuilt from how the services and the test fixture use it.
- `src/constants.rs` is not part of this model. `SessionCookieName` and `UserIdKey` hold stand-in values, and every cookie lemma is stated for any cookie name through `Render`, with the versions for `SessionCookieName` as corollaries.
- `src/views/` is not part of this model. The view row's fields (message and rendered time) and the format `%Y/%m/%d %H:%M` come from what the `list_tweets` test checks.
- Timestamps are kept to the minute, with a year from 0 to 9999. Seconds, time zones, and chrono's signed rendering of years outside 0..9999 are not modelled.
- `max_age` is a `usize`; the model uses an unbounded `nat`. Both lifetimes used, 604800 and 0, fit.
- `delete_tweet` does not check that the caller wrote the tweet, and the model adds no such check. Extracting the user identity from a request cookie (`crate::request`, used at `src/controllers/root.rs:10`) is request-layer code and is not modelled.
- TweetService.DeleteTweet: the promise that the stored tweet's identity is `Some(id)` holds only when the repository keys tweets by their own identity (`TweetsRepo.KeyedByIdentity()`). The source's mock answers `find` with `tweet(1)` for any id, and its test asks for id 1.

/** The unit tests of the two service files, replayed against the model. Each
    method builds the test's fixture, makes the call and asserts what the test
    checks. */
module Scenarios {
  import opened Base
  import opened Timestamps
  import opened TweetEntity
  import opened TweetsRepository
  import opened TweetService
  import opened AccountEntity
  import opened AccountsRepository
  import opened Sessions
  import opened SessionTokens
  import opened AccountService

  /** The tweet fixture `tweet(id)`, posted on 2020-01-01 00:00 UTC. The
      fixture passes no author, so the author here is account 1. */
  function Fixture(id: i32, message: string): Tweet {
    Tweet.New(id, message, Timestamp(2020, 1, 1, 0, 0), 1)
  }

  method ListTweetsReturnsEveryRow() {
    var repo := new TweetsRepo(map[], [Fixture(2, "message2"), Fixture(1, "message1")]);
    var home := ListTweets(repo);
    assert |home.tweets| == 2;
    assert home.tweets[0].message == "message2";
    DisplayNewYear2020();
    assert home.tweets[0].postedAt == "2020/01/01 00:00";
  }

  method ListTweetsOfEmptyRepository() {
    var repo := new TweetsRepo(map[], []);
    var home := ListTweets(repo);
    assert home.tweets == [];
  }

  method CreateTweetStoresOnce(now: Timestamp) {
    var repo := new TweetsRepo(map[], []);
    CreateTweet(repo, "message1", 1, now);
    assert |repo.stored| == 1 && repo.stored[0].message == "message1";
  }

  method DeleteTweetStoresDeletedTweet() {
    var repo := new TweetsRepo(map[1 := Fixture(1, "message1")], []);
    assert repo.KeyedByIdentity();
    DeleteTweet(repo, 1);
    assert |repo.stored| == 1 && repo.stored[0].Id() == Some(1) && repo.stored[0].IsDeleted();
  }

  method DeleteTweetNotFound() {
    var repo := new TweetsRepo(map[], []);
    DeleteTweet(repo, 1);
    assert repo.stored == [];
  }

  /** The account fixture `account(1)`. */
  function AccountFixture(hash: string -> string): Account {
    Account.New(1, "1@example.com", hash("password1"), "display_name1")
  }

  method CreateAccountStoresOnce(hash: string -> string) {
    var repo := new AccountsRepo(map[]);
    var expected := AccountFixture(hash);
    CreateAccount(repo, hash, expected.email, "password1", expected.displayName);
    assert |repo.stored| == 1;
    var a := repo.stored[0];
    assert a.email == expected.email && a.hashedPassword == expected.hashedPassword
           && a.displayName == expected.displayName;
  }

  method CreateSessionForKnownAccount(hash: string -> string, cookie: string, next: string) {
    var account := AccountFixture(hash);
    var repo := new AccountsRepo(map[account.email := account]);
    var store := new SessionStore([Some(cookie), Some(next)]);
    var r := CreateSession(repo, store, hash, account.email, "password1");
    assert r == Done(Some(SessionToken.New(cookie)));
    assert store.saved[0].UserId() == Some(1);
    assert store.saved[0].entries == map[UserIdKey := 1];
    assert store.replies == [Some(next)];
  }

  method CreateSessionForUnknownAccount(hash: string -> string) {
    var repo := new AccountsRepo(map[]);
    var store := new SessionStore([Some("cookie")]);
    var r := CreateSession(repo, store, hash, "1@example.com", "password1");
    assert r == Done(None);
    assert store.saved == [];
  }

  method CreateSessionWithWrongPassword(hash: string -> string)
    requires hash("wrong") != hash("password1")
  {
    var account := AccountFixture(hash);
    var repo := new AccountsRepo(map[account.email := account]);
    var store := new SessionStore([Some("cookie")]);
    var r := CreateSession(repo, store, hash, account.email, "wrong");
    assert r == Done(None);
    assert store.saved == [];
  }
}

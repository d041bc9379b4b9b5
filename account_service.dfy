/** The account use cases: sign-up, sign-in (the credential check and session
    issuance) and sign-out. */
module AccountService {
  import opened Base
  import opened AccountEntity
  import opened AccountsRepository
  import opened Sessions
  import opened SessionTokens

  /** Sign-in succeeds on credentials: an account with that email whose stored
      digest is the digest of the password. */
  predicate GoodCredentials(found: Option<Account>, password: string, hash: string -> string) {
    found.Some? && found.value.MatchesPassword(password, hash)
  }

  /** `create_account`: exactly one `store`, of a new account with the given
      email and display name whose password field is the digest of the
      plaintext. */
  method CreateAccount(repo: AccountsRepo, hash: string -> string,
                       email: string, password: string, displayName: string)
    modifies repo`stored
    ensures |repo.stored| == |old(repo.stored)| + 1
    ensures repo.stored[..|old(repo.stored)|] == old(repo.stored)
    ensures var a := repo.stored[|old(repo.stored)|];
            && a.id == None && a.email == email && a.displayName == displayName
            && a.hashedPassword == hash(password)
            && a.MatchesPassword(password, hash)
  {
    var newAccount := Account.Create(email, password, displayName, hash);
    repo.Store(newAccount);
  }

  /** `create_session`: no session for an unknown email or a wrong password;
      otherwise a session holding the account's identity, alive for seven
      days, is handed to the session store, and the cookie value the store
      answers with becomes the token. The model keeps two of the source's
      `unwrap()` points as panics: the account's identity (line 30) and the
      store's answer (line 34). */
  method CreateSession(repo: AccountsRepo, store: SessionStore, hash: string -> string,
                       email: string, password: string)
    returns (r: Outcome<Option<SessionToken>>)
    modifies store
    ensures r == Done(None) <==> !GoodCredentials(repo.Lookup(email), password, hash)
    ensures !GoodCredentials(repo.Lookup(email), password, hash) ==>
              store.saved == old(store.saved) && store.replies == old(store.replies)
    ensures r == Panicked(AccountWithoutId) <==>
              GoodCredentials(repo.Lookup(email), password, hash) && repo.Lookup(email).value.id.None?
    ensures r == Panicked(AccountWithoutId) ==>
              store.saved == old(store.saved) && store.replies == old(store.replies)
    ensures GoodCredentials(repo.Lookup(email), password, hash) && repo.Lookup(email).value.id.Some? ==>
              && |store.saved| == |old(store.saved)| + 1
              && store.saved[..|old(store.saved)|] == old(store.saved)
              && store.saved[|old(store.saved)|].UserId() == Some(repo.Lookup(email).value.id.value as int)
              && store.saved[|old(store.saved)|].expiresIn == Some(604800)
              && store.saved[|old(store.saved)|].entries
                 == map[UserIdKey := repo.Lookup(email).value.id.value as int]
              && store.replies == (if old(store.replies) == [] then [] else old(store.replies)[1..])
    ensures (r.Done? && r.value.Some?) <==>
              && GoodCredentials(repo.Lookup(email), password, hash)
              && repo.Lookup(email).value.id.Some?
              && old(store.replies) != [] && old(store.replies)[0].Some?
    ensures r.Done? && r.value.Some? ==>
              r.value.value == SessionToken.New(old(store.replies)[0].value)
  {
    var account := repo.FindBy(email);
    if account.None? {
      return Done(None);
    }
    var found := account.value;
    if !found.MatchesPassword(password, hash) {
      return Done(None);
    }
    var session := Session.Empty();
    if found.id.None? {
      return Panicked(AccountWithoutId);
    }
    session := session.Insert(UserIdKey, found.id.value as int);
    session := session.ExpireIn(SessionLifetime);
    var cookie := store.StoreSession(session);
    if cookie.None? {
      return Panicked(SessionStoreFailure);
    }
    r := Done(Some(SessionToken.New(cookie.value)));
  }

  /** `clear_session`: the placeholder token whose cookie carries the value
      `deleted` and a zero lifetime, so the browser evicts the session. */
  function ClearSession(): (r: SessionToken)
    ensures r.token == "deleted" && r.maxAge == 0
    ensures Contains(r.Cookie(), "=deleted") && Contains(r.Cookie(), "Max-Age=0")
  {
    ClearCookieEvicts();
    SessionToken.Clear()
  }
}

/** The Account entity as the services use it: an identity assigned on
    persistence, an email, the hex SHA-256 digest of the password and a display
    name. The digest function is a parameter `hash`, standing for SHA-256. */
module AccountEntity {
  import opened Base

  datatype Account = Account(
    id: Option<i32>,
    email: string,
    hashedPassword: string,
    displayName: string)
  {
    /** An account read back from storage. */
    static function New(id: i32, email: string, hashedPassword: string, displayName: string): (r: Account)
      ensures r.id == Some(id) && r.email == email
      ensures r.hashedPassword == hashedPassword && r.displayName == displayName
    {
      Account(Some(id), email, hashedPassword, displayName)
    }

    /** A new account: the plaintext is hashed and only its digest is kept. */
    static function Create(email: string, password: string, displayName: string, hash: string -> string): (r: Account)
      ensures r.id == None && r.email == email && r.displayName == displayName
      ensures r.hashedPassword == hash(password)
    {
      Account(None, email, hash(password), displayName)
    }

    /** The credential check: the digest of the candidate equals the stored one. */
    predicate MatchesPassword(password: string, hash: string -> string) {
      hash(password) == hashedPassword
    }
  }

  /** An account accepts the password it was created with, and any other
      password exactly when its digest collides with the original's. */
  lemma CreatedAccountMatches(email: string, password: string, displayName: string,
                              hash: string -> string, candidate: string)
    ensures Account.Create(email, password, displayName, hash).MatchesPassword(password, hash)
    ensures Account.Create(email, password, displayName, hash).MatchesPassword(candidate, hash)
            <==> hash(candidate) == hash(password)
  {
  }
}

/** The two-method `Accounts` repository contract: `find_by(email)` and
    `store(&account)`. `find_by` answers from a map keyed by exact email, and
    every `store` call is recorded. */
module AccountsRepository {
  import opened Base
  import opened AccountEntity

  class AccountsRepo {
    /** The accounts `find_by` answers with, by email. */
    var byEmail: map<string, Account>
    /** Every account passed to `store`, in call order. */
    ghost var stored: seq<Account>

    /** What `find_by(email)` answers. */
    function Lookup(email: string): Option<Account>
      reads this
    {
      if email in byEmail then Some(byEmail[email]) else None
    }

    constructor (byEmail: map<string, Account>)
      ensures this.byEmail == byEmail && stored == []
    {
      this.byEmail := byEmail;
      stored := [];
    }

    method FindBy(email: string) returns (a: Option<Account>)
      ensures a.Some? <==> email in byEmail
      ensures a.Some? ==> a.value == byEmail[email]
    {
      a := if email in byEmail then Some(byEmail[email]) else None;
    }

    method Store(a: Account)
      modifies this`stored
      ensures stored == old(stored) + [a]
    {
      stored := stored + [a];
    }
  }
}

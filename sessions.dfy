/** Server-side sessions: a key-value record with a lifetime, and the session
    store that persists one and answers with the opaque cookie value. The store
    is an oracle: the answers it gives are fixed in advance, one per call, and
    a missing answer or `None` is a failed store. */
module Sessions {
  import opened Base

  /** The key under which a session holds the signed-in account's identity.
      The value here is a stand-in for the process-wide constant. */
  const UserIdKey: string := "user_id"

  datatype Session = Session(entries: map<string, int>, expiresIn: Option<nat>)
  {
    /** `Session::new()`: no entries, no expiry. */
    static function Empty(): Session { Session(map[], None) }

    /** `session.insert(key, value)`. */
    function Insert(key: string, value: int): Session {
      this.(entries := entries[key := value])
    }

    /** `session.expire_in(Duration::from_secs(seconds))`. */
    function ExpireIn(seconds: nat): Session {
      this.(expiresIn := Some(seconds))
    }

    /** The identity a loaded session authenticates, if any. */
    function UserId(): Option<int> {
      if UserIdKey in entries then Some(entries[UserIdKey]) else None
    }
  }

  class SessionStore {
    /** The answers the store gives to successive `store_session` calls. */
    var replies: seq<Option<string>>
    /** Every session handed to `store_session`, in call order. */
    ghost var saved: seq<Session>

    constructor (replies: seq<Option<string>>)
      ensures this.replies == replies && saved == []
    {
      this.replies := replies;
      saved := [];
    }

    method StoreSession(s: Session) returns (cookie: Option<string>)
      modifies this
      ensures saved == old(saved) + [s]
      ensures old(replies) == [] ==> cookie == None && replies == []
      ensures old(replies) != [] ==> cookie == old(replies)[0] && replies == old(replies)[1..]
    {
      saved := saved + [s];
      if replies == [] {
        cookie := None;
      } else {
        cookie := replies[0];
        replies := replies[1..];
      }
    }
  }
}

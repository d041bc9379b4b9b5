/** The `Tweets` repository contract the tweet services are written against:
    `find(id)`, `list()` and `store(&tweet)`. As in the source's tests, the
    repository answers `find` and `list` from fixed data and records every
    `store` call; what a real store does with the tweet is not modelled. */
module TweetsRepository {
  import opened Base
  import opened TweetEntity

  class TweetsRepo {
    /** The tweets `find` answers with, by identity. */
    var rows: map<i32, Tweet>
    /** The tweets `list` answers with, in order. */
    var listing: seq<Tweet>
    /** Every tweet passed to `store`, in call order. */
    ghost var stored: seq<Tweet>

    /** Lookup by primary key: a row holds the tweet with that identity. */
    ghost predicate KeyedByIdentity()
      reads this
    {
      forall k :: k in rows ==> rows[k].Id() == Some(k)
    }

    /** What `find(id)` answers. */
    function Lookup(id: i32): Option<Tweet>
      reads this
    {
      if id in rows then Some(rows[id]) else None
    }

    constructor (rows: map<i32, Tweet>, listing: seq<Tweet>)
      ensures this.rows == rows && this.listing == listing && stored == []
    {
      this.rows := rows;
      this.listing := listing;
      stored := [];
    }

    method Find(id: i32) returns (t: Option<Tweet>)
      ensures t.Some? <==> id in rows
      ensures t.Some? ==> t.value == rows[id]
    {
      t := if id in rows then Some(rows[id]) else None;
    }

    method List() returns (ts: seq<Tweet>)
      ensures ts == listing
    {
      ts := listing;
    }

    method Store(t: Tweet)
      modifies this`stored
      ensures stored == old(stored) + [t]
    {
      stored := stored + [t];
    }
  }
}

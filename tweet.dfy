/** The Tweet entity: an optional identity (absent until the tweet has been
    stored), an immutable message, time and author, and a `deleted` flag that
    is the entity's only mutable state. */
module TweetEntity {
  import opened Base
  import opened Timestamps

  datatype Tweet = Tweet(
    id: Option<i32>,
    message: string,
    postedAt: Timestamp,
    postedBy: i32,
    deleted: bool)
  {
    /** A tweet read back from storage, with the identity it was stored under. */
    static function New(id: i32, message: string, postedAt: Timestamp, postedBy: i32): (r: Tweet)
      ensures r.Id() == Some(id) && !r.IsDeleted()
      ensures r.message == message && r.postedAt == postedAt && r.postedBy == postedBy
    {
      Tweet(Some(id), message, postedAt, postedBy, false)
    }

    /** A new tweet by `postedBy`, not yet stored; `now` stands for `Utc::now()`. */
    static function Create(message: string, postedBy: i32, now: Timestamp): (r: Tweet)
      ensures r.Id() == None && !r.IsDeleted()
      ensures r.message == message && r.postedBy == postedBy && r.postedAt == now
    {
      Tweet(None, message, now, postedBy, false)
    }

    function Id(): Option<i32> { id }

    predicate IsDeleted() { deleted }

    /** `delete(&mut self)`: the tweet with its deletion mark set. */
    function Delete(): (r: Tweet)
      ensures r.IsDeleted()
      ensures r.Id() == Id() && r.message == message && r.postedAt == postedAt && r.postedBy == postedBy
    {
      this.(deleted := true)
    }
  }

  /** Deleting a second time changes nothing. */
  lemma DeleteIdempotent(t: Tweet)
    ensures t.Delete().Delete() == t.Delete()
  {
  }
}

/** The tweet use cases: the home timeline, posting a tweet and deleting one. */
module TweetService {
  import opened Base
  import opened Timestamps
  import opened TweetEntity
  import opened TweetsRepository

  /** A row of the home view: the message and its rendered `posted_at`. */
  datatype TweetView = TweetView(message: string, postedAt: string)

  /** The home view: one row per listed tweet. */
  datatype Home = Home(tweets: seq<TweetView>)

  /** The conversion of an entity into its view row. */
  function ToView(t: Tweet): TweetView {
    TweetView(t.message, Display(t.postedAt))
  }

  /** `list_tweets`: one row per tweet the repository lists, in the same
      order, each carrying that tweet's message and its time as
      `YYYY/MM/DD HH:MM`, which reads back as the tweet's own time. */
  method ListTweets(repo: TweetsRepo) returns (home: Home)
    ensures |home.tweets| == |repo.listing|
    ensures repo.listing == [] ==> home.tweets == []
    ensures forall i :: 0 <= i < |home.tweets| ==>
              home.tweets[i].message == repo.listing[i].message
              && home.tweets[i].postedAt == Display(repo.listing[i].postedAt)
    ensures forall i :: 0 <= i < |home.tweets| && repo.listing[i].postedAt.WellFormed() ==>
              Parse(home.tweets[i].postedAt) == Some(repo.listing[i].postedAt)
  {
    var tweets := repo.List();
    home := Home(seq(|tweets|, i requires 0 <= i < |tweets| => ToView(tweets[i])));
    forall i | 0 <= i < |tweets| && tweets[i].postedAt.WellFormed()
      ensures Parse(home.tweets[i].postedAt) == Some(tweets[i].postedAt)
    {
      DisplayRoundTrip(tweets[i].postedAt);
    }
  }

  /** `create_tweet`: exactly one `store`, of a new tweet by `postedBy` with
      the given message, no identity and no deletion mark. */
  method CreateTweet(repo: TweetsRepo, message: string, postedBy: i32, now: Timestamp)
    modifies repo`stored
    ensures |repo.stored| == |old(repo.stored)| + 1
    ensures repo.stored[..|old(repo.stored)|] == old(repo.stored)
    ensures var t := repo.stored[|old(repo.stored)|];
            && t.Id() == None && !t.IsDeleted()
            && t.message == message && t.postedBy == postedBy && t.postedAt == now
  {
    var newTweet := Tweet.Create(message, postedBy, now);
    repo.Store(newTweet);
  }

  /** `delete_tweet`: no `store` when `find(id)` has nothing; otherwise exactly
      one, of the found tweet marked deleted and otherwise unchanged, which
      carries the identity `id` when the repository looks tweets up by key. */
  method DeleteTweet(repo: TweetsRepo, id: i32)
    modifies repo`stored
    ensures old(repo.Lookup(id)).None? ==> repo.stored == old(repo.stored)
    ensures old(repo.Lookup(id)).Some? ==>
              var found := old(repo.Lookup(id)).value;
              && |repo.stored| == |old(repo.stored)| + 1
              && repo.stored[..|old(repo.stored)|] == old(repo.stored)
              && var t := repo.stored[|old(repo.stored)|];
              && t.IsDeleted()
              && t.Id() == found.Id()
              && t.message == found.message && t.postedAt == found.postedAt && t.postedBy == found.postedBy
              && (old(repo.KeyedByIdentity()) ==> t.Id() == Some(id))
  {
    var tweet := repo.Find(id);
    if tweet.Some? {
      var t := tweet.value;
      t := t.Delete();
      repo.Store(t);
    }
  }
}

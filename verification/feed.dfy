/** The dashboard feed of `TweetQueries`: `get_summary` and
    `get_latest_tweets`, both over the tweets that carry a hashtag. */
module Feed {
  import opened Models
  import Folds

  /** The tweets the feed covers: those tagged `h`, or, when `h` is empty,
      every tweet that has at least one hashtag (`exclude(hashtags=None)`). */
  function FeedScope(s: Store, h: string): (r: set<int>)
    ensures r <= s.tweets.Keys
  {
    if h != "" then Tagged(s, h) else set id | id in s.tweets && s.tweets[id].hashtags != {}
  }

  /** The followers of a tweet's author (`author__followers_count`). */
  function Followers(s: Store): int -> int {
    id => if id in s.tweets && s.tweets[id].author in s.users then s.users[s.tweets[id].author].followersCount else 0
  }

  /** A tweet's retweet count. */
  function Retweets(s: Store): int -> int {
    id => if id in s.tweets then s.tweets[id].retweetCount else 0
  }

  // ------------------------------------------------------------- get_summary

  datatype Summary = Summary(reach: int, tweetsCount: nat, retweetCount: int, users: nat)

  /** `TweetQueries.get_summary(hashtag_name)`. `Count('author')` counts one
      author per tweet, not distinct authors, so `users` always equals
      `tweetsCount`; `Coalesce` turns the sums over no tweets into 0. */
  function GetSummary(s: Store, h: string): (r: Summary)
    ensures r.tweetsCount == |FeedScope(s, h)|
    ensures r.users == r.tweetsCount
    ensures FeedScope(s, h) == {} ==> r == Summary(0, 0, 0, 0)
  {
    var scope := FeedScope(s, h);
    Summary(Folds.Sum(scope, Followers(s)), |scope|, Folds.Sum(scope, Retweets(s)), |scope|)
  }

  /** The summary is what adding up the tweets one row at a time gives, in
      whatever order the rows come: each tweet adds its author's followers
      and its retweet count once, and counts once. */
  lemma SummaryAddsUpRows(s: Store, h: string, rows: seq<int>)
    requires Folds.Distinct(rows) && Folds.Elements(rows) == FeedScope(s, h)
    ensures GetSummary(s, h).reach == Folds.SeqSum(rows, Followers(s))
    ensures GetSummary(s, h).retweetCount == Folds.SeqSum(rows, Retweets(s))
    ensures GetSummary(s, h).tweetsCount == |rows|
  {
    Folds.SumOfEnumeration(FeedScope(s, h), rows, Followers(s));
    Folds.SumOfEnumeration(FeedScope(s, h), rows, Retweets(s));
    Folds.DistinctCardinality(rows);
  }

  /** When every author in scope has `c` followers, the reach is `c` per
      tweet, whether or not the authors repeat. */
  lemma SummaryUniformReach(s: Store, h: string, c: int)
    requires forall id :: id in FeedScope(s, h) ==> Followers(s)(id) == c
    ensures GetSummary(s, h).reach == c * GetSummary(s, h).tweetsCount
  {
    Folds.SumConstant(FeedScope(s, h), Followers(s), c);
  }

  /** The tweets of one hashtag are among the tweets with a hashtag, so with
      non-negative follower and retweet counts one hashtag's summary never
      exceeds the global one. */
  lemma HashtagSummaryWithinGlobal(s: Store, h: string)
    requires h != ""
    requires forall u :: u in s.users ==> s.users[u].followersCount >= 0
    requires forall id :: id in s.tweets ==> s.tweets[id].retweetCount >= 0
    ensures GetSummary(s, h).tweetsCount <= GetSummary(s, "").tweetsCount
    ensures GetSummary(s, h).reach <= GetSummary(s, "").reach
    ensures GetSummary(s, h).retweetCount <= GetSummary(s, "").retweetCount
  {
    var mine := FeedScope(s, h);
    var all := FeedScope(s, "");
    assert mine <= all;
    assert all == mine + (all - mine);
    Folds.SubsetCardinality(mine, all);
    Folds.SumUnion(mine, all - mine, Followers(s));
    Folds.SumUnion(mine, all - mine, Retweets(s));
    Folds.SumNonNegative(all - mine, Followers(s));
    Folds.SumNonNegative(all - mine, Retweets(s));
  }

  // ------------------------------------------------------- get_latest_tweets

  function CreatedAt(s: Store, id: int): int
    requires id in s.tweets
  {
    s.tweets[id].createdAt
  }

  /** The newest tweet of `ids`; among tweets published at the same time the
      one with the largest id. The database leaves the order of such ties
      open, and the contracts below do not depend on this choice. */
  function Newest(s: Store, ids: set<int>): (x: int)
    requires ids != {} && ids <= s.tweets.Keys
    ensures x in ids
    ensures forall y :: y in ids ==> CreatedAt(s, y) <= CreatedAt(s, x)
  {
    var times := set y | y in ids :: CreatedAt(s, y);
    Folds.HasMember(ids);
    var some :| some in ids;
    assert CreatedAt(s, some) in times;
    var latest := Folds.Max(times);
    var newest := set y | y in ids && CreatedAt(s, y) == latest;
    assert newest != {} by {
      var y :| y in ids && CreatedAt(s, y) == latest;
      assert y in newest;
    }
    forall y | y in ids ensures CreatedAt(s, y) <= latest {
      assert CreatedAt(s, y) in times;
    }
    Folds.Max(newest)
  }

  /** The newest `count` tweets of `ids`, newest first
      (`order_by('-created_at')[:count]`): as many as asked for or as there
      are, each once, in non-increasing time, and no tweet left out is newer
      than one returned. */
  function LatestFrom(s: Store, ids: set<int>, count: nat): (r: seq<int>)
    requires ids <= s.tweets.Keys
    ensures |r| == if count < |ids| then count else |ids|
    ensures forall i :: 0 <= i < |r| ==> r[i] in ids
    ensures Folds.Distinct(r)
    ensures forall i, j :: 0 <= i < j < |r| ==> CreatedAt(s, r[i]) >= CreatedAt(s, r[j])
    ensures forall id, i :: id in ids && id !in r && 0 <= i < |r| ==> CreatedAt(s, id) <= CreatedAt(s, r[i])
    decreases count
  {
    if count == 0 || ids == {} then []
    else
      var x := Newest(s, ids);
      var rest := LatestFrom(s, ids - {x}, count - 1);
      assert |ids - {x}| == |ids| - 1;
      assert x !in rest;
      [x] + rest
  }

  /** `TweetQueries.get_latest_tweets(hashtag_name, count)`. */
  function GetLatestTweets(s: Store, h: string, count: nat): (r: seq<int>)
    ensures |r| == if count < |FeedScope(s, h)| then count else |FeedScope(s, h)|
    ensures forall i :: 0 <= i < |r| ==> r[i] in FeedScope(s, h)
    ensures Folds.Distinct(r)
    ensures forall i, j :: 0 <= i < j < |r| ==> s.tweets[r[i]].createdAt >= s.tweets[r[j]].createdAt
    ensures forall id, i :: id in FeedScope(s, h) && id !in r && 0 <= i < |r| ==>
      s.tweets[id].createdAt <= s.tweets[r[i]].createdAt
  {
    LatestFrom(s, FeedScope(s, h), count)
  }

  /** The feed and the summary agree: asking for at least as many tweets as
      the summary counts returns every tweet it counts. */
  lemma LatestCoversSummary(s: Store, h: string, count: nat)
    requires count >= GetSummary(s, h).tweetsCount
    ensures Folds.Elements(GetLatestTweets(s, h, count)) == FeedScope(s, h)
  {
    var r := GetLatestTweets(s, h, count);
    Folds.DistinctCardinality(r);
    Folds.SameSizeSubset(Folds.Elements(r), FeedScope(s, h));
  }
}

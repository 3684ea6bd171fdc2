/** Deletion in hashtag_monitor/apps/monitor/models.py: the `on_delete=CASCADE`
    foreign keys of Tweet (quoted_tweet, retweeted, author) and the
    `cascade_delete_tweets` pre-delete receiver of Hashtag. */
module Cascade {
  import opened Results
  import opened Models
  import Folds

  /** `t` points at a tweet of `doomed` through quoted_tweet or retweeted. */
  predicate RefersInto(t: Tweet, doomed: set<int>) {
    || (t.quoted.Some? && t.quoted.value in doomed)
    || (t.retweeted.Some? && t.retweeted.value in doomed)
  }

  /** No stored tweet outside `doomed` points into it: deleting `doomed`
      leaves no dangling quoted/retweeted reference. */
  predicate ClosedUnderReference(s: Store, doomed: set<int>) {
    forall id :: id in s.tweets && RefersInto(s.tweets[id], doomed) ==> id in doomed
  }

  /** The tweets that quote or retweet one of `d`. */
  function Referrers(s: Store, d: set<int>): set<int> {
    set id | id in s.tweets && RefersInto(s.tweets[id], d)
  }

  lemma ProperSubsetSmaller(a: set<int>, b: set<int>)
    requires a < b
    ensures |a| < |b|
  {
    assert b == a + (b - a);
    Folds.HasMember(b - a);
    var x :| x in b - a;
  }

  /** What Django's deletion collector removes along with `seed`: `seed`
      and, transitively, every tweet quoting or retweeting a removed one. */
  function CascadeSet(s: Store, seed: set<int>): (c: set<int>)
    requires seed <= s.tweets.Keys
    ensures seed <= c <= s.tweets.Keys
    ensures ClosedUnderReference(s, c)
    decreases |s.tweets.Keys - seed|
  {
    var next := seed + Referrers(s, seed);
    if next == seed then
      seed
    else
      ProperSubsetSmaller(s.tweets.Keys - next, s.tweets.Keys - seed);
      CascadeSet(s, next)
  }

  /** The cascade removes nothing without a reason: it is contained in every
      reference-closed set that contains the seed, so it is the least one. */
  lemma {:induction false} CascadeSetIsLeast(s: Store, seed: set<int>, other: set<int>)
    requires seed <= s.tweets.Keys
    requires seed <= other
    requires ClosedUnderReference(s, other)
    ensures CascadeSet(s, seed) <= other
    decreases |s.tweets.Keys - seed|
  {
    var next := seed + Referrers(s, seed);
    if next != seed {
      ProperSubsetSmaller(s.tweets.Keys - next, s.tweets.Keys - seed);
      assert Referrers(s, seed) <= other by {
        forall id | id in Referrers(s, seed)
          ensures id in other
        {
          assert RefersInto(s.tweets[id], other);
        }
      }
      CascadeSetIsLeast(s, next, other);
    }
  }

  /** A tweet that quotes and retweets nothing is removed only when it is
      itself part of the seed. */
  lemma StandaloneTweetOnlyDeletedIfSeeded(s: Store, seed: set<int>, id: int)
    requires seed <= s.tweets.Keys
    requires id in s.tweets && id !in seed
    requires s.tweets[id].quoted.None? && s.tweets[id].retweeted.None?
    ensures id !in CascadeSet(s, seed)
  {
    var other := CascadeSet(s, seed) - {id};
    assert ClosedUnderReference(s, other);
    CascadeSetIsLeast(s, seed, other);
  }

  /** The store without the tweet rows `doomed`. */
  function RemoveTweets(s: Store, doomed: set<int>): (r: Store)
    ensures r.tweets.Keys == s.tweets.Keys - doomed
    ensures forall id :: id in r.tweets ==> r.tweets[id] == s.tweets[id]
    ensures r.hashtags == s.hashtags && r.users == s.users
  {
    s.(tweets := map id | id in s.tweets && id !in doomed :: s.tweets[id])
  }

  /** Removing a reference-closed set of tweets keeps the invariant. */
  lemma RemoveClosedPreservesValid(s: Store, doomed: set<int>)
    requires Valid(s)
    requires ClosedUnderReference(s, doomed)
    ensures Valid(RemoveTweets(s, doomed))
  {
    var r := RemoveTweets(s, doomed);
    forall id | id in r.tweets
      ensures TweetValid(r, r.tweets[id])
    {
      assert TweetValid(s, s.tweets[id]);
      assert !RefersInto(s.tweets[id], doomed);
    }
  }

  /** `tweet.delete()`. */
  function DeleteTweet(s: Store, id: int): (r: Store)
    requires id in s.tweets
    ensures id !in r.tweets
    ensures r.tweets.Keys == s.tweets.Keys - CascadeSet(s, {id})
    ensures forall t :: t in r.tweets ==> r.tweets[t] == s.tweets[t]
    ensures forall t :: t in r.tweets ==> !RefersInto(s.tweets[t], CascadeSet(s, {id}))
    ensures r.hashtags == s.hashtags && r.users == s.users
  {
    RemoveTweets(s, CascadeSet(s, {id}))
  }

  lemma DeleteTweetPreservesValid(s: Store, id: int)
    requires Valid(s) && id in s.tweets
    ensures Valid(DeleteTweet(s, id))
  {
    RemoveClosedPreservesValid(s, CascadeSet(s, {id}));
  }

  /** The tweets written by `user`. */
  function AuthoredBy(s: Store, user: int): set<int> {
    set id | id in s.tweets && s.tweets[id].author == user
  }

  /** `user.delete()`: the author foreign key cascades to every tweet of the
      user, and on to whatever quotes or retweets those. */
  function DeleteUser(s: Store, user: int): (r: Store)
    requires user in s.users
    ensures user !in r.users && r.users == s.users - {user}
    ensures forall t :: t in r.tweets ==> t in s.tweets && r.tweets[t] == s.tweets[t] && r.tweets[t].author != user
    ensures r.tweets.Keys == s.tweets.Keys - CascadeSet(s, AuthoredBy(s, user))
    ensures r.hashtags == s.hashtags
  {
    var removed := RemoveTweets(s, CascadeSet(s, AuthoredBy(s, user)));
    removed.(users := s.users - {user})
  }

  lemma DeleteUserPreservesValid(s: Store, user: int)
    requires Valid(s) && user in s.users
    ensures Valid(DeleteUser(s, user))
  {
    var doomed := CascadeSet(s, AuthoredBy(s, user));
    RemoveClosedPreservesValid(s, doomed);
    var r := DeleteUser(s, user);
    forall id | id in r.tweets
      ensures TweetValid(r, r.tweets[id])
    {
      assert TweetValid(s, s.tweets[id]);
      assert !RefersInto(s.tweets[id], doomed);
    }
  }

  /** The tweets `cascade_delete_tweets` deletes itself: those tagged `name`
      that carry no other hashtag. */
  function OnlyTaggedWith(s: Store, name: string): set<int> {
    set id | id in s.tweets && name in s.tweets[id].hashtags && |s.tweets[id].hashtags| <= 1
  }

  /** `hashtag.delete()`: the pre-delete receiver deletes the tweets tagged
      only with it (cascading to their quoters and retweeters), then the
      hashtag row and its relation rows go, so the survivors lose the tag. */
  function DeleteHashtag(s: Store, name: string): (r: Store)
    requires name in s.hashtags
    ensures r.hashtags == s.hashtags - {name}
    ensures r.users == s.users
    ensures r.tweets.Keys == s.tweets.Keys - CascadeSet(s, OnlyTaggedWith(s, name))
    ensures forall id :: id in s.tweets && s.tweets[id].hashtags == {name} ==> id !in r.tweets
    ensures forall id :: id in r.tweets ==>
      r.tweets[id] == s.tweets[id].(hashtags := s.tweets[id].hashtags - {name})
    ensures forall id :: id in r.tweets ==> name !in r.tweets[id].hashtags
  {
    var doomed := CascadeSet(s, OnlyTaggedWith(s, name));
    Store(
      s.hashtags - {name},
      s.users,
      map id | id in s.tweets && id !in doomed :: s.tweets[id].(hashtags := s.tweets[id].hashtags - {name}))
  }

  /** A tweet tagged `name` and some other hashtag survives the deletion of
      `name` (minus that tag) unless it quotes or retweets a deleted tweet;
      in particular when it references nothing. */
  lemma MultiTaggedStandaloneTweetSurvives(s: Store, name: string, id: int)
    requires name in s.hashtags
    requires id in s.tweets && name in s.tweets[id].hashtags && |s.tweets[id].hashtags| >= 2
    requires s.tweets[id].quoted.None? && s.tweets[id].retweeted.None?
    ensures id in DeleteHashtag(s, name).tweets
    ensures DeleteHashtag(s, name).tweets[id].hashtags == s.tweets[id].hashtags - {name}
  {
    StandaloneTweetOnlyDeletedIfSeeded(s, OnlyTaggedWith(s, name), id);
  }

  /** The reference case the previous lemma leaves out: a tweet that quotes
      or retweets a tweet tagged only `name` goes with it, whatever other
      hashtags it carries, because `tweet.delete()` in the receiver cascades
      through the self references. */
  lemma ReferrerOfOnlyTaggedDeleted(s: Store, name: string, id: int)
    requires name in s.hashtags
    requires id in s.tweets && RefersInto(s.tweets[id], OnlyTaggedWith(s, name))
    ensures id !in DeleteHashtag(s, name).tweets
  {
    assert RefersInto(s.tweets[id], CascadeSet(s, OnlyTaggedWith(s, name)));
  }

  /** An instance: tweet 11, tagged `#a` and `#b`, quotes tweet 10, tagged
      only `#a`; deleting `#a` removes both, so a tweet with two hashtags
      does not always survive. */
  lemma MultiTaggedQuoterDeleted()
    ensures var t10 := Tweet(1, None, None, {"#a"}, 0, "x", "en", 0, None, None, None);
      var t11 := Tweet(1, Some(10), None, {"#a", "#b"}, 0, "y", "en", 0, None, None, None);
      var s := Store(map["#a" := Palette[0], "#b" := Palette[1]],
        map[1 := User("n", "n", 0, 0, 0, None)], map[10 := t10, 11 := t11]);
      && |s.tweets[11].hashtags| >= 2
      && 11 !in DeleteHashtag(s, "#a").tweets
  {
    var t10 := Tweet(1, None, None, {"#a"}, 0, "x", "en", 0, None, None, None);
    var t11 := Tweet(1, Some(10), None, {"#a", "#b"}, 0, "y", "en", 0, None, None, None);
    var s := Store(map["#a" := Palette[0], "#b" := Palette[1]],
      map[1 := User("n", "n", 0, 0, 0, None)], map[10 := t10, 11 := t11]);
    assert 10 in OnlyTaggedWith(s, "#a");
    ReferrerOfOnlyTaggedDeleted(s, "#a", 11);
  }

  lemma DeleteHashtagPreservesValid(s: Store, name: string)
    requires Valid(s) && name in s.hashtags
    ensures Valid(DeleteHashtag(s, name))
  {
    var doomed := CascadeSet(s, OnlyTaggedWith(s, name));
    var r := DeleteHashtag(s, name);
    assert r.hashtags.Keys == s.hashtags.Keys - {name};
    assert |r.hashtags| <= |s.hashtags| by {
      assert r.hashtags.Keys <= s.hashtags.Keys;
    }
    forall id | id in r.tweets
      ensures TweetValid(r, r.tweets[id])
    {
      assert TweetValid(s, s.tweets[id]);
      assert !RefersInto(s.tweets[id], doomed);
    }
  }
}

/** `TweetQueries.get_hashtag_tweets_per_day`: for every hashtag, its colour
    and the number of its tweets on each day of a window ending today.
    Days are whole days since the epoch; `today` is a parameter because the
    source reads the clock. */
module TweetsPerDay {
  import opened Models

  /** The chart entry of one hashtag. */
  datatype Series = Series(color: string, values: map<int, nat>)

  /** The tweets tagged `h` published on day `d`. */
  function TweetsOn(s: Store, h: string, d: int): set<int> {
    set id | id in s.tweets && h in s.tweets[id].hashtags && Day(s.tweets[id].createdAt) == d
  }

  /** The days after `today - n` on which `h` has tweets: the rows of the
      grouped query for `h` (`created_at__date__gt=base - num_days`). */
  function ActiveDays(s: Store, h: string, today: int, n: int): set<int> {
    set id | id in s.tweets && h in s.tweets[id].hashtags && today - n < Day(s.tweets[id].createdAt)
      :: Day(s.tweets[id].createdAt)
  }

  lemma ActiveDay(s: Store, h: string, today: int, n: int, d: int)
    ensures d in ActiveDays(s, h, today, n) <==> today - n < d && TweetsOn(s, h, d) != {}
  {
    if today - n < d && TweetsOn(s, h, d) != {} {
      Folds.HasMember(TweetsOn(s, h, d));
      var id :| id in TweetsOn(s, h, d);
      assert Day(s.tweets[id].createdAt) in ActiveDays(s, h, today, n);
    }
    if d in ActiveDays(s, h, today, n) {
      var id :| id in s.tweets && h in s.tweets[id].hashtags && today - n < Day(s.tweets[id].createdAt)
        && Day(s.tweets[id].createdAt) == d;
      assert id in TweetsOn(s, h, d);
    }
  }

  /** The counts the grouped query reports for `h`. */
  function Counts(s: Store, h: string, today: int, n: int): (m: map<int, nat>)
    ensures forall d :: d in m <==> today - n < d && TweetsOn(s, h, d) != {}
    ensures forall d :: d in m ==> m[d] == |TweetsOn(s, h, d)|
  {
    forall d ensures d in ActiveDays(s, h, today, n) <==> today - n < d && TweetsOn(s, h, d) != {} {
      ActiveDay(s, h, today, n, d);
    }
    map d | d in ActiveDays(s, h, today, n) :: |TweetsOn(s, h, d)|
  }

  /** The zero-filled days, `range(num_days-1, 0, -1)` days before today:
      the window without today. */
  function Prefill(today: int, n: int): map<int, nat> {
    var window := DaysBetween(today - n, today - 1);
    map d | d in window :: 0
  }

  /** The day series of `h`: zero-filled days before today, overwritten
      by the grouped counts. Every listed day
      carries the exact number of tweets of `h` that day. */
  function Days(s: Store, h: string, today: int, n: int): (m: map<int, nat>)
    ensures forall d :: d in m <==> today - n < d && (d < today || TweetsOn(s, h, d) != {})
    ensures forall d :: d in m ==> m[d] == |TweetsOn(s, h, d)|
  {
    Prefill(today, n) + Counts(s, h, today, n)
  }

  /** The query: one series per hashtag, in the hashtag's colour. */
  function HashtagTweetsPerDay(s: Store, today: int, n: int): (r: map<string, Series>)
    ensures r.Keys == s.hashtags.Keys
    ensures forall h :: h in r ==> r[h] == Series(s.hashtags[h], Days(s, h, today, n))
  {
    map h | h in s.hashtags :: Series(s.hashtags[h], Days(s, h, today, n))
  }

  /** No tweet of `h` is dated after `today`. */
  predicate NoFutureTweets(s: Store, h: string, today: int) {
    forall id :: id in s.tweets && h in s.tweets[id].hashtags ==> Day(s.tweets[id].createdAt) <= today
  }

  /** The days `lo + 1 .. hi`. */
  function DaysBetween(lo: int, hi: int): (r: set<int>)
    ensures forall d :: d in r <==> lo < d <= hi
    decreases hi - lo
  {
    if hi <= lo then {} else DaysBetween(lo, hi - 1) + {hi}
  }

  lemma {:induction false} DaysBetweenSize(lo: int, hi: int)
    requires lo <= hi
    ensures |DaysBetween(lo, hi)| == hi - lo
    decreases hi - lo
  {
    if lo < hi {
      DaysBetweenSize(lo, hi - 1);
      assert hi !in DaysBetween(lo, hi - 1);
    }
  }

  /** A day series over exactly the days `lo + 1 .. hi` has `hi - lo`
      entries. */
  lemma WindowSize(values: map<int, nat>, lo: int, hi: int)
    requires lo <= hi && values.Keys == DaysBetween(lo, hi)
    ensures |values| == hi - lo
  {
    DaysBetweenSize(lo, hi);
    assert |values| == |values.Keys|;
  }

  lemma NoTweetsAfter(s: Store, h: string, today: int, d: int)
    requires NoFutureTweets(s, h, today) && today < d
    ensures TweetsOn(s, h, d) == {}
  {
    forall id | id in s.tweets && h in s.tweets[id].hashtags ensures Day(s.tweets[id].createdAt) != d {}
    assert forall id :: id !in TweetsOn(s, h, d);
  }

  /** Today is not zero-filled: a hashtag with no tweet today has no entry
      for today. */
  lemma TodayMissingWithoutTweets(s: Store, today: int, n: int, h: string)
    requires TweetsOn(s, h, today) == {}
    ensures today !in Days(s, h, today, n)
  {
  }

  /** A hashtag with no tweet from today on gets the `n - 1` days before
      today. */
  lemma WindowWithoutToday(s: Store, today: int, n: int, h: string)
    requires n >= 1
    requires NoFutureTweets(s, h, today) && TweetsOn(s, h, today) == {}
    ensures Days(s, h, today, n).Keys == DaysBetween(today - n, today - 1)
    ensures |Days(s, h, today, n)| == n - 1
  {
    assert Days(s, h, today, n).Keys == DaysBetween(today - n, today - 1) by {
      KeysWithoutToday(s, today, n, h);
    }
    WindowSize(Days(s, h, today, n), today - n, today - 1);
  }

  lemma KeysWithoutToday(s: Store, today: int, n: int, h: string)
    requires NoFutureTweets(s, h, today) && TweetsOn(s, h, today) == {}
    ensures Days(s, h, today, n).Keys == DaysBetween(today - n, today - 1)
  {
    forall d ensures d in Days(s, h, today, n) <==> d in DaysBetween(today - n, today - 1) {
      DayWithoutToday(s, today, n, h, d);
    }
  }

  lemma DayWithoutToday(s: Store, today: int, n: int, h: string, d: int)
    requires NoFutureTweets(s, h, today) && TweetsOn(s, h, today) == {}
    ensures d in Days(s, h, today, n) <==> today - n < d < today
  {
    if d > today {
      NoTweetsAfter(s, h, today, d);
    }
  }

  /** A hashtag with a tweet today and none after gets exactly the `n`
      days ending today. */
  lemma WindowWithToday(s: Store, today: int, n: int, h: string)
    requires n >= 1
    requires NoFutureTweets(s, h, today) && TweetsOn(s, h, today) != {}
    ensures Days(s, h, today, n).Keys == DaysBetween(today - n, today)
    ensures |Days(s, h, today, n)| == n
  {
    assert Days(s, h, today, n).Keys == DaysBetween(today - n, today) by {
      KeysWithToday(s, today, n, h);
    }
    WindowSize(Days(s, h, today, n), today - n, today);
  }

  lemma KeysWithToday(s: Store, today: int, n: int, h: string)
    requires n >= 1
    requires NoFutureTweets(s, h, today) && TweetsOn(s, h, today) != {}
    ensures Days(s, h, today, n).Keys == DaysBetween(today - n, today)
  {
    forall d ensures d in Days(s, h, today, n) <==> d in DaysBetween(today - n, today) {
      if d > today {
        NoTweetsAfter(s, h, today, d);
      }
    }
  }

  /** A concrete store that shows the short window: one hashtag, no tweets,
      a two-day window; only yesterday is listed. */
  lemma TwoDayExample()
    ensures HashtagTweetsPerDay(Store(map["#a" := Palette[0]], map[], map[]), 10, 2)["#a"].values
      == map[9 := 0]
  {
    var s := Store(map["#a" := Palette[0]], map[], map[]);
    var values := Days(s, "#a", 10, 2);
    assert forall d :: TweetsOn(s, "#a", d) == {};
    assert values.Keys == {9};
  }
}

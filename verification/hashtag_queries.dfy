/** `HashtagQueries` of hashtag_monitor/apps/monitor/queries.py: get-or-create
    by name, tweet counts per hashtag, the name-ordered listing, and deletion
    that tolerates a missing name. */
module HashtagQueries {
  import opened Results
  import opened Text
  import opened Models
  import Cascade
  import Feed
  import Folds

  // ------------------------------------------------------------ get_or_create

  /** `HashtagQueries.get_or_create(name)`: the stored hashtag with exactly
      this name, or a new one with a random palette colour (`draw`). */
  function GetOrCreate(s: Store, name: string, draw: nat): (r: Result<Store, set<HashtagError>>)
    ensures name in s.hashtags ==> r == Success(s)
    ensures r.Failure? <==>
      && name !in s.hashtags
      && !(WellFormedName(name) && !HasCaseInsensitiveMatch(s.hashtags, name) && |s.hashtags| != MaxHashtags)
    ensures r.Success? ==>
      && name in r.value.hashtags
      && r.value.hashtags.Keys == s.hashtags.Keys + {name}
      && (name !in s.hashtags ==> r.value.hashtags[name] in Palette)
      && r.value.users == s.users && r.value.tweets == s.tweets
      && (forall n :: n in s.hashtags ==> r.value.hashtags[n] == s.hashtags[n])
  {
    if name in s.hashtags then Success(s) else CreateHashtag(s, name, None, draw)
  }

  /** Asking for the same name again finds the hashtag the first call left. */
  lemma GetOrCreateIdempotent(s: Store, name: string, draw: nat, draw': nat)
    requires GetOrCreate(s, name, draw).Success?
    ensures GetOrCreate(GetOrCreate(s, name, draw).value, name, draw') == GetOrCreate(s, name, draw)
  {
  }

  lemma GetOrCreatePreservesValid(s: Store, name: string, draw: nat)
    requires Valid(s) && GetOrCreate(s, name, draw).Success?
    ensures Valid(GetOrCreate(s, name, draw).value)
  {
    if name !in s.hashtags {
      CreateHashtagPreservesValid(s, name, None, draw);
    }
  }

  // ---------------------------------------------- get_tweets_count_per_hashtag

  /** One entry of `get_tweets_count_per_hashtag`. */
  datatype HashtagCount = HashtagCount(count: nat, color: string)

  /** `get_tweets_count_per_hashtag()`: every hashtag with its colour and the
      number of tweets tagged with it (`Count('tweet')`, 0 when none). The
      count is the tweet count of the hashtag's summary, and it is 0 exactly
      when the hashtag has no since-id to page from. */
  function TweetsCountPerHashtag(s: Store): (r: map<string, HashtagCount>)
    ensures r.Keys == s.hashtags.Keys
    ensures forall n :: n in r ==> r[n].color == s.hashtags[n]
    ensures forall n :: n in r && n != "" ==> r[n].count == Feed.GetSummary(s, n).tweetsCount
    ensures forall n :: n in r && n != "" ==> (r[n].count == 0 <==> SinceId(s, n).None?)
  {
    map n | n in s.hashtags :: HashtagCount(|Tagged(s, n)|, s.hashtags[n])
  }

  /** Each tweet is counted once under each of its hashtags: a tweet with
      no hashtag is counted nowhere, and counts never exceed the number of
      tweets. */
  lemma CountWithinTweets(s: Store, name: string)
    requires name in s.hashtags
    ensures TweetsCountPerHashtag(s)[name].count <= |s.tweets|
  {
    Folds.SubsetCardinality(Tagged(s, name), s.tweets.Keys);
  }

  // ------------------------------------------------------ get_hashtags_sorted

  /** Names in ascending order. */
  predicate Sorted(xs: seq<string>) {
    forall i, j :: 0 <= i < j < |xs| ==> NotAfter(xs[i], xs[j])
  }

  /** `xs` with `x` inserted before the first name it does not sort after. */
  function Insert(x: string, xs: seq<string>): (r: seq<string>)
    ensures |r| == |xs| + 1
    ensures forall y :: y in r <==> y == x || y in xs
    decreases |xs|
  {
    if xs == [] then [x]
    else if NotAfter(x, xs[0]) then [x] + xs
    else [xs[0]] + Insert(x, xs[1..])
  }

  lemma {:induction false} InsertSorted(x: string, xs: seq<string>)
    requires Sorted(xs) && Folds.Distinct(xs) && x !in xs
    ensures Sorted(Insert(x, xs)) && Folds.Distinct(Insert(x, xs))
    decreases |xs|
  {
    if xs == [] {
    } else if NotAfter(x, xs[0]) {
      forall j | 0 <= j < |xs|
        ensures NotAfter(x, xs[j])
      {
        if j > 0 {
          NotAfterTransitive(x, xs[0], xs[j]);
        }
      }
      assert Sorted([x] + xs);
    } else {
      NotAfterTotal(x, xs[0]);
      var rest := Insert(x, xs[1..]);
      assert Sorted(xs[1..]);
      InsertSorted(x, xs[1..]);
      forall k | 0 <= k < |rest|
        ensures NotAfter(xs[0], rest[k]) && xs[0] != rest[k]
      {
        if rest[k] != x {
          assert rest[k] in rest;
          assert rest[k] in xs[1..];
          var j :| 0 <= j < |xs[1..]| && xs[1..][j] == rest[k];
          assert xs[j + 1] == rest[k];
        }
      }
      assert Sorted([xs[0]] + rest);
    }
  }

  /** `get_hashtags_sorted()`: every hashtag name once, ordered by name. */
  method HashtagsSorted(s: Store) returns (names: seq<string>)
    ensures forall n :: n in names <==> n in s.hashtags
    ensures Folds.Distinct(names)
    ensures Sorted(names)
  {
    names := [];
    var rest := s.hashtags.Keys;
    while rest != {}
      invariant rest <= s.hashtags.Keys
      invariant forall n :: n in names <==> n in s.hashtags && n !in rest
      invariant Folds.Distinct(names) && Sorted(names)
      decreases |rest|
    {
      var x :| x in rest;
      InsertSorted(x, names);
      names := Insert(x, names);
      rest := rest - {x};
    }
  }

  /** There is only one such listing: two duplicate-free ascending sequences
      of the same names are equal. */
  lemma {:induction false} SortedListingUnique(a: seq<string>, b: seq<string>)
    requires Sorted(a) && Folds.Distinct(a) && Sorted(b) && Folds.Distinct(b)
    requires forall n :: n in a <==> n in b
    ensures a == b
    decreases |a|
  {
    assert a == [] <==> b == [] by {
      if a != [] {
        assert a[0] in b;
      }
      if b != [] {
        assert b[0] in a;
      }
    }
    if a != [] {
      assert a[0] in b;
      assert b[0] in a;
      var i :| 0 <= i < |b| && b[i] == a[0];
      var j :| 0 <= j < |a| && a[j] == b[0];
      assert a[0] == b[0] by {
        if i > 0 && j > 0 {
          assert NotAfter(b[0], b[i]);
          assert NotAfter(a[0], a[j]);
          NotAfterAntisymmetric(a[0], b[0]);
        }
      }
      forall n
        ensures n in a[1..] <==> n in b[1..]
      {
        if n in a[1..] {
          assert n != a[0];
          assert n in b;
        }
        if n in b[1..] {
          assert n != b[0];
          assert n in a;
        }
      }
      assert Sorted(a[1..]) && Folds.Distinct(a[1..]);
      assert Sorted(b[1..]) && Folds.Distinct(b[1..]);
      SortedListingUnique(a[1..], b[1..]);
      assert a == [a[0]] + a[1..];
      assert b == [b[0]] + b[1..];
    }
  }

  // --------------------------------------------------------- delete_if_exists

  /** `delete_if_exists(name)`: deletes the hashtag (with its cascade) and
      reports whether it existed. */
  function DeleteIfExists(s: Store, name: string): (r: (Store, bool))
    ensures r.1 <==> name in s.hashtags
    ensures name !in r.0.hashtags
    ensures r.0.hashtags == s.hashtags - {name}
    ensures !r.1 ==> r.0 == s
  {
    if name in s.hashtags then (Cascade.DeleteHashtag(s, name), true) else (s, false)
  }

  /** A second deletion of the same name finds nothing and changes nothing. */
  lemma DeleteIfExistsTwice(s: Store, name: string)
    ensures DeleteIfExists(DeleteIfExists(s, name).0, name) == (DeleteIfExists(s, name).0, false)
  {
  }

  lemma DeleteIfExistsPreservesValid(s: Store, name: string)
    requires Valid(s)
    ensures Valid(DeleteIfExists(s, name).0)
  {
    if name in s.hashtags {
      Cascade.DeleteHashtagPreservesValid(s, name);
    }
  }
}

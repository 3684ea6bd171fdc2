/** The aggregate read queries of `TweetQueries` in
    hashtag_monitor/apps/monitor/queries.py, as pure functions of the store. */
module TweetQueries {
  import opened Results
  import opened Models
  import Folds

  // ------------------------------------------------------ get_tweets_per_lang

  /** The bucket that collects undetermined and cut-off languages. */
  const Others := "others"

  /** One row of `values("lang").annotate(count=Count('lang'))`. */
  datatype LangCount = LangCount(lang: string, count: nat)

  /** The tweets of `ids` written in `lang`. */
  function InLang(s: Store, ids: set<int>, lang: string): set<int> {
    set id | id in ids && id in s.tweets && s.tweets[id].lang == lang
  }

  function Langs(rows: seq<LangCount>): set<string> {
    set i | 0 <= i < |rows| :: rows[i].lang
  }

  /** `rows` is a result the grouped, `-count`-ordered query may return for
      the tweets `scope`: one row per language present, with its count, in
      non-increasing count order. The database leaves ties in any order, so
      the ordering is an input here rather than a choice of the model. */
  predicate IsRanking(s: Store, scope: set<int>, rows: seq<LangCount>) {
    && (forall i :: 0 <= i < |rows| ==> rows[i].count == |InLang(s, scope, rows[i].lang)| > 0)
    && (forall i, j :: 0 <= i < j < |rows| ==> rows[i].lang != rows[j].lang)
    && (forall i, j :: 0 <= i < j < |rows| ==> rows[i].count >= rows[j].count)
    && (forall id :: id in scope && id in s.tweets ==> s.tweets[id].lang in Langs(rows))
  }

  /** `{q['lang']: q['count'] for q in rows if q['lang'] != 'und'}`. */
  function LangMap(rows: seq<LangCount>): (m: map<string, nat>)
    ensures Undetermined !in m
    ensures m.Keys == Langs(rows) - {Undetermined}
    decreases |rows|
  {
    if rows == [] then map[]
    else
      var init := rows[..|rows| - 1];
      var last := rows[|rows| - 1];
      assert Langs(rows) == Langs(init) + {last.lang};
      if last.lang == Undetermined then LangMap(init) else LangMap(init)[last.lang := last.count]
  }

  /** Sum of the counts of the rows whose language is, or is not, `und`. */
  function CountSum(rows: seq<LangCount>, undetermined: bool): nat
    decreases |rows|
  {
    if rows == [] then 0
    else
      var last := rows[|rows| - 1];
      CountSum(rows[..|rows| - 1], undetermined)
      + (if (last.lang == Undetermined) == undetermined then last.count else 0)
  }

  /** How many rows a cut at `top` keeps of `n`. */
  function Cut(top: int, n: nat): nat
    requires top > 0
  {
    if top < n then top else n
  }

  /** `TweetQueries.get_tweets_per_lang(top, hashtag_name)`. With `top > 0`
      the lazy query is run as separate SQL statements, `query[:top]`,
      `query[top:]` and `query`, and each may order tied counts its own way:
      `rows` is the ranking the first and the last return, `rest` the one
      `query[top:]` returns. Only the undetermined rows of the last are read,
      and their sum does not depend on the order (`UndeterminedCount`). With
      `top <= 0` the query is evaluated once and its cached rows read twice,
      so `rest` is not used. */
  function TweetsPerLang(s: Store, top: int, h: string, rows: seq<LangCount>, rest: seq<LangCount>)
    : (r: map<string, nat>)
    requires IsRanking(s, Scope(s, h), rows) && IsRanking(s, Scope(s, h), rest)
    ensures Undetermined !in r && Others in r
    ensures top > 0 ==> |r.Keys - {Others}| <= top
    ensures top <= 0 ==> r[Others] == |InLang(s, Scope(s, h), Undetermined)|
    ensures top <= 0 ==> forall id :: id in Scope(s, h) && s.tweets[id].lang !in {Undetermined, Others} ==>
      s.tweets[id].lang in r && r[s.tweets[id].lang] == |InLang(s, Scope(s, h), s.tweets[id].lang)|
  {
    if top > 0 then
      CutBreakdown(rows, Cut(top, |rows|), rest, Cut(top, |rest|))
    else
      WholeBreakdown(s, Scope(s, h), rows)
  }

  /** The breakdown without a cut: every determined language of the ranking
      with its count, and `others` holding the undetermined rows. */
  function WholeBreakdown(s: Store, scope: set<int>, rows: seq<LangCount>): (r: map<string, nat>)
    requires IsRanking(s, scope, rows)
    ensures Undetermined !in r && Others in r
    ensures r.Keys == (Langs(rows) - {Undetermined}) + {Others}
    ensures r[Others] == |InLang(s, scope, Undetermined)|
    ensures forall id :: id in scope && id in s.tweets && s.tweets[id].lang !in {Undetermined, Others} ==>
      s.tweets[id].lang in r && r[s.tweets[id].lang] == |InLang(s, scope, s.tweets[id].lang)|
  {
    UndeterminedCount(s, scope, rows);
    forall id | id in scope && id in s.tweets && s.tweets[id].lang !in {Undetermined, Others}
      ensures s.tweets[id].lang in LangMap(rows)
      ensures LangMap(rows)[s.tweets[id].lang] == |InLang(s, scope, s.tweets[id].lang)|
    {
      var i :| 0 <= i < |rows| && rows[i].lang == s.tweets[id].lang;
      LangMapValue(rows, i);
    }
    LangMap(rows)[Others := CountSum(rows, true)]
  }

  /** The breakdown with a cut: the determined languages of the first `k`
      rows of `rows`, and `others` holding the determined counts of `rest`
      from row `j` on plus every undetermined row of `rows`. */
  function CutBreakdown(rows: seq<LangCount>, k: nat, rest: seq<LangCount>, j: nat): (r: map<string, nat>)
    requires k <= |rows| && j <= |rest|
    ensures Undetermined !in r && Others in r
    ensures |r.Keys - {Others}| <= k
    ensures r.Keys == (Langs(rows[..k]) - {Undetermined}) + {Others}
    ensures forall l :: l in r && l != Others ==> r[l] == LangMap(rows[..k])[l]
    ensures r[Others] == CountSum(rest[j..], false) + CountSum(rows, true)
  {
    var kept := LangMap(rows[..k]);
    LangsCardinality(rows[..k]);
    assert |kept.Keys| <= k by {
      Folds.SubsetCardinality(kept.Keys, Langs(rows[..k]));
    }
    var r := kept[Others := CountSum(rest[j..], false) + CountSum(rows, true)];
    assert r.Keys - {Others} <= kept.Keys;
    Folds.SubsetCardinality(r.Keys - {Others}, kept.Keys);
    r
  }

  lemma {:induction false} LangsCardinality(rows: seq<LangCount>)
    ensures |Langs(rows)| <= |rows|
    decreases |rows|
  {
    if rows != [] {
      var init := rows[..|rows| - 1];
      assert Langs(rows) == Langs(init) + {rows[|rows| - 1].lang};
      LangsCardinality(init);
    }
  }

  /** With distinct languages, the map holds each non-`und` row's own count. */
  lemma {:induction false} LangMapValue(rows: seq<LangCount>, i: int)
    requires forall a, b :: 0 <= a < b < |rows| ==> rows[a].lang != rows[b].lang
    requires 0 <= i < |rows| && rows[i].lang != Undetermined
    ensures rows[i].lang in LangMap(rows) && LangMap(rows)[rows[i].lang] == rows[i].count
    decreases |rows|
  {
    var init := rows[..|rows| - 1];
    if i < |rows| - 1 {
      assert init[i] == rows[i];
      LangMapValue(init, i);
    }
  }

  /** The `und` rows sum to the number of undetermined tweets in scope. */
  lemma {:induction false} UndeterminedCount(s: Store, scope: set<int>, rows: seq<LangCount>)
    requires IsRanking(s, scope, rows)
    ensures CountSum(rows, true) == |InLang(s, scope, Undetermined)|
  {
    if Undetermined in Langs(rows) {
      var i :| 0 <= i < |rows| && rows[i].lang == Undetermined;
      UndeterminedRowSum(rows, i);
    } else {
      UndeterminedAbsentSum(rows);
      forall id | id in scope && id in s.tweets
        ensures s.tweets[id].lang != Undetermined
      {
        assert s.tweets[id].lang in Langs(rows);
      }
      assert InLang(s, scope, Undetermined) == {};
    }
  }

  lemma {:induction false} UndeterminedRowSum(rows: seq<LangCount>, i: int)
    requires forall a, b :: 0 <= a < b < |rows| ==> rows[a].lang != rows[b].lang
    requires 0 <= i < |rows| && rows[i].lang == Undetermined
    ensures CountSum(rows, true) == rows[i].count
    decreases |rows|
  {
    var init := rows[..|rows| - 1];
    if i < |rows| - 1 {
      assert init[i] == rows[i];
      UndeterminedRowSum(init, i);
    } else {
      assert Undetermined !in Langs(init);
      UndeterminedAbsentSum(init);
    }
  }

  lemma {:induction false} UndeterminedAbsentSum(rows: seq<LangCount>)
    requires Undetermined !in Langs(rows)
    ensures CountSum(rows, true) == 0
    decreases |rows|
  {
    if rows != [] {
      var init := rows[..|rows| - 1];
      assert Langs(init) <= Langs(rows) by {
        forall l | l in Langs(init) ensures l in Langs(rows) {
          var i :| 0 <= i < |init| && init[i].lang == l;
          assert rows[i] == init[i];
        }
      }
      UndeterminedAbsentSum(init);
    }
  }

  /** Each row of `part` carries the exact number of tweets of its
      language in `scope`, and no language has two rows. */
  predicate CountsExact(s: Store, scope: set<int>, part: seq<LangCount>) {
    && (forall i :: 0 <= i < |part| ==> part[i].count == |InLang(s, scope, part[i].lang)|)
    && (forall a, b :: 0 <= a < b < |part| ==> part[a].lang != part[b].lang)
  }

  /** The tweets of `scope` whose language is one of `langs`. */
  function WithLangIn(s: Store, scope: set<int>, langs: set<string>): set<int> {
    set id | id in scope && id in s.tweets && s.tweets[id].lang in langs
  }

  /** The tweets of `scope` whose language has no entry of its own among
      `keys`. */
  function Unlisted(s: Store, scope: set<int>, keys: set<string>): set<int> {
    set id | id in scope && id in s.tweets && s.tweets[id].lang !in keys
  }

  lemma SliceExact(s: Store, scope: set<int>, rows: seq<LangCount>, lo: nat, hi: nat)
    requires IsRanking(s, scope, rows)
    requires lo <= hi <= |rows|
    ensures CountsExact(s, scope, rows[lo..hi])
  {
    forall i | 0 <= i < hi - lo ensures rows[lo..hi][i] == rows[lo + i] {}
  }

  /** The rows of `part` add up to the number of tweets in their languages. */
  lemma {:induction false} CountsTotal(s: Store, scope: set<int>, part: seq<LangCount>)
    requires CountsExact(s, scope, part)
    ensures |WithLangIn(s, scope, Langs(part))| == CountSum(part, false) + CountSum(part, true)
    decreases |part|
  {
    if part == [] {
      assert Langs(part) == {};
      assert WithLangIn(s, scope, Langs(part)) == {};
    } else {
      var init := part[..|part| - 1];
      var last := part[|part| - 1];
      ExactInit(s, scope, part);
      CountsTotal(s, scope, init);
      WithLangInAdd(s, scope, Langs(init), last.lang);
    }
  }

  /** Dropping the last row keeps the rows exact; the last language is new. */
  lemma ExactInit(s: Store, scope: set<int>, part: seq<LangCount>)
    requires CountsExact(s, scope, part) && part != []
    ensures CountsExact(s, scope, part[..|part| - 1])
    ensures part[|part| - 1].lang !in Langs(part[..|part| - 1])
    ensures Langs(part) == Langs(part[..|part| - 1]) + {part[|part| - 1].lang}
    ensures part[|part| - 1].count == |InLang(s, scope, part[|part| - 1].lang)|
  {
    var init := part[..|part| - 1];
    var last := part[|part| - 1];
    forall i | 0 <= i < |init| ensures init[i] == part[i] && init[i].lang != last.lang {}
    assert part == init + [last];
  }

  /** Adding a new language adds exactly the tweets in it. */
  lemma WithLangInAdd(s: Store, scope: set<int>, langs: set<string>, l: string)
    requires l !in langs
    ensures |WithLangIn(s, scope, langs + {l})| == |WithLangIn(s, scope, langs)| + |InLang(s, scope, l)|
  {
    assert WithLangIn(s, scope, langs + {l}) == WithLangIn(s, scope, langs) + InLang(s, scope, l);
    assert WithLangIn(s, scope, langs) !! InLang(s, scope, l);
  }

  /** Language codes have at most 3 characters, so no ranked language is
      the `others` bucket. */
  lemma OthersNotRanked(s: Store, scope: set<int>, rows: seq<LangCount>)
    requires Valid(s)
    requires IsRanking(s, scope, rows)
    ensures Others !in Langs(rows)
  {
    forall i | 0 <= i < |rows| ensures rows[i].lang != Others {
      Folds.HasMember(InLang(s, scope, rows[i].lang));
      var id :| id in InLang(s, scope, rows[i].lang);
      assert TweetValid(s, s.tweets[id]);
    }
  }

  /** Every language of a kept row maps to its exact count. */
  lemma LangMapExact(s: Store, scope: set<int>, part: seq<LangCount>)
    requires CountsExact(s, scope, part)
    ensures forall l :: l in LangMap(part) ==> LangMap(part)[l] == |InLang(s, scope, l)|
  {
    forall l | l in LangMap(part) ensures LangMap(part)[l] == |InLang(s, scope, l)| {
      var i :| 0 <= i < |part| && part[i].lang == l;
      LangMapValue(part, i);
    }
  }

  /** A cut splits the languages of a ranking into two disjoint parts. */
  lemma LangsSplit(rows: seq<LangCount>, k: nat)
    requires forall a, b :: 0 <= a < b < |rows| ==> rows[a].lang != rows[b].lang
    requires k <= |rows|
    ensures Langs(rows) == Langs(rows[..k]) + Langs(rows[k..])
    ensures Langs(rows[..k]) !! Langs(rows[k..])
  {
    var front := rows[..k];
    var back := rows[k..];
    forall i | 0 <= i < |front| ensures front[i] == rows[i] {}
    forall j | 0 <= j < |back| ensures back[j] == rows[k + j] {}
    forall i | 0 <= i < |rows| ensures rows[i].lang in Langs(front) + Langs(back) {
      if i < k { assert front[i] == rows[i]; } else { assert back[i - k] == rows[i]; }
    }
  }

  /** After the cut at `k`, the tweets without an entry of their own are
      those of the cut-off languages and the undetermined ones. */
  lemma CutOffTweets(s: Store, scope: set<int>, rows: seq<LangCount>, k: nat)
    requires IsRanking(s, scope, rows) && k <= |rows|
    requires Others !in Langs(rows)
    ensures Unlisted(s, scope, (Langs(rows[..k]) - {Undetermined}) + {Others})
      == WithLangIn(s, scope, Langs(rows[k..])) + InLang(s, scope, Undetermined)
  {
    LangsSplit(rows, k);
    var keys := (Langs(rows[..k]) - {Undetermined}) + {Others};
    forall id | id in scope && id in s.tweets
      ensures s.tweets[id].lang !in keys <==>
        s.tweets[id].lang in Langs(rows[k..]) || s.tweets[id].lang == Undetermined
    {
      assert s.tweets[id].lang in Langs(rows);
    }
  }

  /** The tweets of the languages of `part`, together with the
      undetermined ones, number the determined counts of `part` plus the
      undetermined tweets, whether or not `part` has an `und` row. */
  lemma WithUndetermined(s: Store, scope: set<int>, part: seq<LangCount>)
    requires CountsExact(s, scope, part)
    ensures |WithLangIn(s, scope, Langs(part)) + InLang(s, scope, Undetermined)|
      == CountSum(part, false) + |InLang(s, scope, Undetermined)|
  {
    CountsTotal(s, scope, part);
    if Undetermined in Langs(part) {
      var i :| 0 <= i < |part| && part[i].lang == Undetermined;
      UndeterminedRowSum(part, i);
      assert InLang(s, scope, Undetermined) <= WithLangIn(s, scope, Langs(part));
      assert WithLangIn(s, scope, Langs(part)) + InLang(s, scope, Undetermined)
        == WithLangIn(s, scope, Langs(part));
    } else {
      UndeterminedAbsentSum(part);
      assert WithLangIn(s, scope, Langs(part)) !! InLang(s, scope, Undetermined);
    }
  }

  /** `r` partitions the tweets of `scope`: every language with an entry
      maps to exactly its number of tweets, and `others` counts exactly the
      tweets whose language has no entry. */
  predicate IsPartition(s: Store, scope: set<int>, r: map<string, nat>) {
    && Others in r
    && (forall l :: l in r && l != Others ==> r[l] == |InLang(s, scope, l)|)
    && r[Others] == |Unlisted(s, scope, r.Keys)|
  }

  /** With a cut after `k` rows of `rows`, and a tail of `rest` from row `j`
      holding the same languages as the tail of `rows`, `others` holds the
      counts of the cut-off rows plus the undetermined tweets, which is the
      number of tweets left without an entry. */
  lemma OthersBucket(s: Store, scope: set<int>, rows: seq<LangCount>, k: nat, rest: seq<LangCount>, j: nat)
    requires IsRanking(s, scope, rows) && k <= |rows|
    requires IsRanking(s, scope, rest) && j <= |rest|
    requires Langs(rest[j..]) == Langs(rows[k..])
    requires Others !in Langs(rows)
    ensures CountSum(rest[j..], false) + CountSum(rows, true)
      == |Unlisted(s, scope, (Langs(rows[..k]) - {Undetermined}) + {Others})|
  {
    CutOffTweets(s, scope, rows, k);
    assert CountsExact(s, scope, rest[j..]) by {
      SliceExact(s, scope, rest, j, |rest|);
      assert rest[j..|rest|] == rest[j..];
    }
    WithUndetermined(s, scope, rest[j..]);
    UndeterminedCount(s, scope, rows);
  }

  /** The two statements of a cut agree on which languages they cut off. */
  predicate CutsAgree(rows: seq<LangCount>, rest: seq<LangCount>, top: int) {
    top > 0 ==> Langs(rest[Cut(top, |rest|)..]) == Langs(rows[Cut(top, |rows|)..])
  }

  /** No two languages with equal counts sit on both sides of the cut. */
  predicate NoTieAtCut(rows: seq<LangCount>, top: int) {
    0 < top < |rows| ==> rows[top - 1].count > rows[top].count
  }

  /** The language breakdown is a partition of the tweets in scope: every
      language with an entry maps to exactly its number of tweets, and
      `others` counts exactly the tweets whose language has no entry
      (undetermined, or cut off by `top`). With a cut this needs the two
      statements to split the languages alike, which holds whenever no tie
      straddles the cut. */
  lemma TweetsPerLangPartition(s: Store, top: int, h: string, rows: seq<LangCount>, rest: seq<LangCount>)
    requires Valid(s)
    requires IsRanking(s, Scope(s, h), rows) && IsRanking(s, Scope(s, h), rest)
    requires NoTieAtCut(rows, top)
    ensures IsPartition(s, Scope(s, h), TweetsPerLang(s, top, h, rows, rest))
  {
    OthersNotRanked(s, Scope(s, h), rows);
    if top > 0 {
      SameCutOff(s, Scope(s, h), rows, rest, top);
    }
    PartitionUnlessOthersRanked(s, top, h, rows, rest);
  }

  lemma PartitionUnlessOthersRanked(s: Store, top: int, h: string, rows: seq<LangCount>, rest: seq<LangCount>)
    requires IsRanking(s, Scope(s, h), rows) && IsRanking(s, Scope(s, h), rest)
    requires Others !in Langs(rows) && CutsAgree(rows, rest, top)
    ensures IsPartition(s, Scope(s, h), TweetsPerLang(s, top, h, rows, rest))
  {
    if top > 0 {
      PartitionWithCut(s, top, h, rows, rest);
    } else {
      PartitionWithoutCut(s, top, h, rows, rest);
    }
  }

  lemma PartitionWithCut(s: Store, top: int, h: string, rows: seq<LangCount>, rest: seq<LangCount>)
    requires IsRanking(s, Scope(s, h), rows) && IsRanking(s, Scope(s, h), rest)
    requires Others !in Langs(rows) && top > 0 && CutsAgree(rows, rest, top)
    ensures IsPartition(s, Scope(s, h), TweetsPerLang(s, top, h, rows, rest))
  {
    var k := Cut(top, |rows|);
    var j := Cut(top, |rest|);
    CutPartition(s, Scope(s, h), rows, k, rest, j);
  }

  /** The partition for a cut after `k` rows of `rows` and `j` rows of
      `rest`, when the two tails hold the same languages. */
  lemma CutPartition(s: Store, scope: set<int>, rows: seq<LangCount>, k: nat, rest: seq<LangCount>, j: nat)
    requires IsRanking(s, scope, rows) && k <= |rows|
    requires IsRanking(s, scope, rest) && j <= |rest|
    requires Langs(rest[j..]) == Langs(rows[k..]) && Others !in Langs(rows)
    ensures IsPartition(s, scope, CutBreakdown(rows, k, rest, j))
  {
    assert CountsExact(s, scope, rows[..k]) by {
      SliceExact(s, scope, rows, 0, k);
      assert rows[0..k] == rows[..k];
    }
    LangMapExact(s, scope, rows[..k]);
    OthersBucket(s, scope, rows, k, rest, j);
  }

  lemma PartitionWithoutCut(s: Store, top: int, h: string, rows: seq<LangCount>, rest: seq<LangCount>)
    requires IsRanking(s, Scope(s, h), rows) && IsRanking(s, Scope(s, h), rest)
    requires Others !in Langs(rows) && top <= 0
    ensures IsPartition(s, Scope(s, h), TweetsPerLang(s, top, h, rows, rest))
  {
    var scope := Scope(s, h);
    var r := TweetsPerLang(s, top, h, rows, rest);
    assert CountsExact(s, scope, rows) by {
      SliceExact(s, scope, rows, 0, |rows|);
      assert rows[0..|rows|] == rows;
    }
    LangMapExact(s, scope, rows);
    UndeterminedCount(s, scope, rows);
    forall id | id in scope && id in s.tweets
      ensures s.tweets[id].lang !in r.Keys <==> s.tweets[id].lang == Undetermined
    {
      assert s.tweets[id].lang in Langs(rows);
    }
    assert Unlisted(s, scope, r.Keys) == InLang(s, scope, Undetermined);
  }

  // ------------------------------------------------------------ tie at cut

  /** The languages of the tweets in `scope`. */
  function ScopeLangs(s: Store, scope: set<int>): set<string> {
    set id | id in scope && id in s.tweets :: s.tweets[id].lang
  }

  /** A ranking lists exactly the languages present in scope. */
  lemma RankingLangs(s: Store, scope: set<int>, rows: seq<LangCount>)
    requires IsRanking(s, scope, rows)
    ensures Langs(rows) == ScopeLangs(s, scope)
  {
    forall i | 0 <= i < |rows|
      ensures rows[i].lang in ScopeLangs(s, scope)
    {
      Folds.HasMember(InLang(s, scope, rows[i].lang));
      var id :| id in InLang(s, scope, rows[i].lang);
    }
    forall l | l in ScopeLangs(s, scope)
      ensures l in Langs(rows)
    {
      var id :| id in scope && id in s.tweets && s.tweets[id].lang == l;
    }
  }

  /** Rows with distinct languages list as many languages as there are rows. */
  lemma {:induction false} DistinctLangsCardinality(rows: seq<LangCount>)
    requires forall a, b :: 0 <= a < b < |rows| ==> rows[a].lang != rows[b].lang
    ensures |Langs(rows)| == |rows|
    decreases |rows|
  {
    if rows == [] {
      assert Langs(rows) == {};
    } else {
      var init := rows[..|rows| - 1];
      var last := rows[|rows| - 1];
      forall i | 0 <= i < |init| ensures init[i] == rows[i] {}
      assert Langs(rows) == Langs(init) + {last.lang};
      assert last.lang !in Langs(init);
      DistinctLangsCardinality(init);
    }
  }

  /** The languages with at least `c` tweets in scope. */
  function AtLeast(s: Store, scope: set<int>, c: nat): set<string> {
    set l | l in ScopeLangs(s, scope) && |InLang(s, scope, l)| >= c
  }

  /** With no tie at the cut, the rows a ranking keeps are exactly the
      languages with at least as many tweets as the last kept row. */
  lemma HeadIsAtLeast(s: Store, scope: set<int>, rows: seq<LangCount>, k: nat)
    requires IsRanking(s, scope, rows)
    requires 0 < k < |rows| && rows[k - 1].count > rows[k].count
    ensures Langs(rows[..k]) == AtLeast(s, scope, rows[k - 1].count)
  {
    RankingLangs(s, scope, rows);
    var c := rows[k - 1].count;
    forall i | 0 <= i < k
      ensures rows[..k][i] == rows[i] && rows[i].lang in AtLeast(s, scope, c)
    {
    }
    forall l | l in AtLeast(s, scope, c)
      ensures l in Langs(rows[..k])
    {
      var i :| 0 <= i < |rows| && rows[i].lang == l;
      assert i < k;
      assert rows[..k][i] == rows[i];
    }
  }

  /** If row `m` of a ranking has fewer than `c` tweets, every language with
      at least `c` comes before it, so there are at most `m` of them. */
  lemma ThinRowBound(s: Store, scope: set<int>, rest: seq<LangCount>, m: nat, c: nat)
    requires IsRanking(s, scope, rest) && m < |rest| && rest[m].count < c
    ensures |AtLeast(s, scope, c)| <= m
  {
    RankingLangs(s, scope, rest);
    forall l | l in AtLeast(s, scope, c)
      ensures l in Langs(rest[..m])
    {
      var j :| 0 <= j < |rest| && rest[j].lang == l;
      assert j < m;
      assert rest[..m][j] == rest[j];
    }
    LangsCardinality(rest[..m]);
    Folds.SubsetCardinality(AtLeast(s, scope, c), Langs(rest[..m]));
  }

  /** When `k` languages have at least `c` tweets, every one of the first
      `k` rows of any ranking has at least `c`. */
  lemma ThickHead(s: Store, scope: set<int>, rest: seq<LangCount>, m: nat, c: nat, k: nat)
    requires IsRanking(s, scope, rest) && m < k <= |rest|
    requires |AtLeast(s, scope, c)| >= k
    ensures rest[m].count >= c
  {
    if rest[m].count < c {
      ThinRowBound(s, scope, rest, m, c);
      assert false;
    }
  }

  /** With no tie at the cut of `rows`, any other ranking `rest` of the same
      tweets cuts off the same languages, so the two statements agree. */
  lemma SameCutOff(s: Store, scope: set<int>, rows: seq<LangCount>, rest: seq<LangCount>, top: int)
    requires IsRanking(s, scope, rows) && IsRanking(s, scope, rest)
    requires top > 0 && NoTieAtCut(rows, top)
    ensures CutsAgree(rows, rest, top)
  {
    RankingLangs(s, scope, rows);
    RankingLangs(s, scope, rest);
    DistinctLangsCardinality(rows);
    DistinctLangsCardinality(rest);
    if top >= |rows| {
      assert rows[|rows|..] == [] && rest[|rest|..] == [];
      assert Langs(rows[|rows|..]) == {} && Langs(rest[|rest|..]) == {};
    } else {
      var k: nat := top;
      var c := rows[k - 1].count;
      var high := AtLeast(s, scope, c);
      assert |high| == k by {
        HeadIsAtLeast(s, scope, rows, k);
        DistinctLangsCardinality(rows[..k]);
      }
      forall m | 0 <= m < k
        ensures rest[..k][m].lang in high
      {
        ThickHead(s, scope, rest, m, c, k);
        assert rest[..k][m] == rest[m];
        assert rest[m].lang in Langs(rest);
      }
      assert Langs(rest[..k]) <= high;
      DistinctLangsCardinality(rest[..k]);
      Folds.SameSizeSubset(Langs(rest[..k]), high);
      HeadIsAtLeast(s, scope, rows, k);
      LangsSplit(rows, k);
      LangsSplit(rest, k);
      assert Langs(rest[k..]) == Langs(rest) - high;
      assert Langs(rows[k..]) == Langs(rows) - high;
    }
  }

  // ------------------------------------------------------------------ totals

  /** The sum of the values of a count map. */
  ghost function ValueSum(m: map<string, nat>): nat
    decreases |m|
  {
    if m == map[] then 0
    else
      var k :| k in m;
      m[k] + ValueSum(m - {k})
  }

  /** Any key may be taken out first. */
  lemma {:induction false} ValueSumRemove(m: map<string, nat>, k: string)
    requires k in m
    ensures ValueSum(m) == m[k] + ValueSum(m - {k})
    decreases |m|
  {
    var j :| j in m && ValueSum(m) == m[j] + ValueSum(m - {j});
    if j != k {
      ValueSumRemove(m - {j}, k);
      ValueSumRemove(m - {k}, j);
      assert m - {j} - {k} == m - {k} - {j};
    }
  }

  /** Entries that each hold their language's exact count add up to the
      tweets in those languages. */
  lemma {:induction false} ExactSum(s: Store, scope: set<int>, m: map<string, nat>)
    requires forall l :: l in m ==> m[l] == |InLang(s, scope, l)|
    ensures ValueSum(m) == |WithLangIn(s, scope, m.Keys)|
    decreases |m|
  {
    if m == map[] {
      assert WithLangIn(s, scope, m.Keys) == {};
    } else {
      var k :| k in m;
      ValueSumRemove(m, k);
      ExactSum(s, scope, m - {k});
      assert (m - {k}).Keys + {k} == m.Keys;
      WithLangInAdd(s, scope, (m - {k}).Keys, k);
    }
  }

  /** Nothing is lost or counted twice: when no tie straddles the cut, the
      values of the breakdown add up to the number of tweets in scope. */
  lemma TweetsPerLangTotal(s: Store, top: int, h: string, rows: seq<LangCount>, rest: seq<LangCount>)
    requires Valid(s)
    requires IsRanking(s, Scope(s, h), rows) && IsRanking(s, Scope(s, h), rest)
    requires NoTieAtCut(rows, top)
    ensures ValueSum(TweetsPerLang(s, top, h, rows, rest)) == |Scope(s, h)|
  {
    if top > 0 {
      SameCutOff(s, Scope(s, h), rows, rest, top);
    }
    AgreeingTotal(s, top, h, rows, rest);
  }

  /** The total, for statements that split the languages alike. */
  lemma AgreeingTotal(s: Store, top: int, h: string, rows: seq<LangCount>, rest: seq<LangCount>)
    requires Valid(s)
    requires IsRanking(s, Scope(s, h), rows) && IsRanking(s, Scope(s, h), rest)
    requires CutsAgree(rows, rest, top)
    ensures ValueSum(TweetsPerLang(s, top, h, rows, rest)) == |Scope(s, h)|
  {
    var scope := Scope(s, h);
    var r := TweetsPerLang(s, top, h, rows, rest);
    OthersNotRanked(s, scope, rows);
    PartitionUnlessOthersRanked(s, top, h, rows, rest);
    var kept := r - {Others};
    ValueSumRemove(r, Others);
    ExactSum(s, scope, kept);
    SplitScope(s, scope, rows, r.Keys);
  }

  /** Two tweets by one user: tweet 1 undetermined, tweet 2 in `en`. */
  const TieStore := Store(map[], map[1 := User("n", "n", 0, 0, 0, None)],
    map[1 := Tweet(1, None, None, {}, 0, "x", Undetermined, 0, None, None, None),
        2 := Tweet(1, None, None, {}, 0, "y", "en", 0, None, None, None)])

  /** `TieStore` is valid, and each of its languages has one tweet. */
  lemma TieStoreCounts()
    ensures Valid(TieStore) && Scope(TieStore, "") == {1, 2}
    ensures InLang(TieStore, {1, 2}, Undetermined) == {1}
    ensures InLang(TieStore, {1, 2}, "en") == {2}
  {
  }

  /** Both orders of the two tied rows rank the tweets of `TieStore`. */
  lemma TieStoreRanked()
    ensures IsRanking(TieStore, Scope(TieStore, ""), [LangCount(Undetermined, 1), LangCount("en", 1)])
    ensures IsRanking(TieStore, Scope(TieStore, ""), [LangCount("en", 1), LangCount(Undetermined, 1)])
  {
    TieStoreCounts();
    var u := LangCount(Undetermined, 1);
    var e := LangCount("en", 1);
    assert Langs([u, e]) == {Undetermined, "en"} by {
      assert [u, e][0] == u && [u, e][1] == e;
    }
    assert Langs([e, u]) == {Undetermined, "en"} by {
      assert [e, u][0] == e && [e, u][1] == u;
    }
  }

  /** Cutting after one row when the head statement puts the `und` row
      first and the tail statement puts it last keeps no language and
      leaves `others` with the `und` count alone. */
  lemma UndeterminedFirstBreakdown(u: LangCount, e: LangCount)
    requires u.lang == Undetermined && e.lang != Undetermined
    ensures CutBreakdown([u, e], 1, [e, u], 1) == map[Others := u.count]
  {
    var r := CutBreakdown([u, e], 1, [e, u], 1);
    assert [u, e][..1] == [u] && [e, u][1..] == [u] && [u][..0] == [] && [u, e][..1] == [u];
    assert Langs([u]) == {Undetermined} by {
      assert [u][0] == u;
    }
    assert CountSum([u], false) == 0;
    assert CountSum([u], true) == u.count;
    assert CountSum([u, e], true) == u.count;
    assert r.Keys == {Others};
  }

  /** With a tie across the cut the statements may disagree: in `TieStore`,
      `query[:1]` may return the `und` row first and `query[1:]` return it
      last, so the `en` tweet is counted nowhere and the values add up to 1
      of the 2 tweets. */
  lemma TieAtCutMiscounts()
    ensures var rows := [LangCount(Undetermined, 1), LangCount("en", 1)];
      var rest := [LangCount("en", 1), LangCount(Undetermined, 1)];
      && Valid(TieStore)
      && IsRanking(TieStore, Scope(TieStore, ""), rows) && IsRanking(TieStore, Scope(TieStore, ""), rest)
      && TweetsPerLang(TieStore, 1, "", rows, rest) == map[Others := 1]
      && ValueSum(TweetsPerLang(TieStore, 1, "", rows, rest)) == 1
      && |Scope(TieStore, "")| == 2
  {
    TieStoreCounts();
    TieStoreRanked();
    UndeterminedFirstBreakdown(LangCount(Undetermined, 1), LangCount("en", 1));
    var r: map<string, nat> := map[Others := 1];
    ValueSumRemove(r, Others);
    assert r - {Others} == map[];
  }

  /** The breakdown as evidently intended: the query evaluated once and cut
      in memory, so the kept rows and the cut-off rows come from one ranking.
      It is a partition of the tweets in scope whatever the ties. */
  function TweetsPerLangOnce(s: Store, top: int, h: string, rows: seq<LangCount>): (r: map<string, nat>)
    requires Valid(s) && IsRanking(s, Scope(s, h), rows)
    ensures Undetermined !in r
    ensures top > 0 ==> |r.Keys - {Others}| <= top
    ensures IsPartition(s, Scope(s, h), r)
    ensures ValueSum(r) == |Scope(s, h)|
  {
    OthersNotRanked(s, Scope(s, h), rows);
    PartitionUnlessOthersRanked(s, top, h, rows, rows);
    AgreeingTotal(s, top, h, rows, rows);
    TweetsPerLang(s, top, h, rows, rows)
  }

  /** The tweets of the listed languages and the unlisted ones split the
      scope, since no tweet in scope is written in `others`. */
  lemma SplitScope(s: Store, scope: set<int>, rows: seq<LangCount>, keys: set<string>)
    requires IsRanking(s, scope, rows) && Others !in Langs(rows)
    requires scope <= s.tweets.Keys
    ensures |WithLangIn(s, scope, keys - {Others})| + |Unlisted(s, scope, keys)| == |scope|
  {
    forall id | id in scope ensures s.tweets[id].lang != Others {
      assert s.tweets[id].lang in Langs(rows);
    }
    assert WithLangIn(s, scope, keys - {Others}) + Unlisted(s, scope, keys) == scope;
    assert WithLangIn(s, scope, keys - {Others}) !! Unlisted(s, scope, keys);
  }
}

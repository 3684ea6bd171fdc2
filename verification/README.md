# Hashtag Monitor: a verified model of the monitor app's data layer

Hashtag Monitor is a Django application. It tracks hashtags on Twitter, stores the
tweets it fetches for them, and serves aggregate views: tweets per language, tweets
per day, summaries and latest tweets. This project models the app's data layer in
Dafny:

- the models of `hashtag_monitor/apps/monitor/models.py`:
  - the `Hashtag`, `User` and `Tweet` rows and their validators;
  - the random palette colour;
  - the retweet-count reset in `Tweet.save`;
  - `get_since_id` and `get_max_id`;
  - the deletion cascades;
- the query layer of `hashtag_monitor/apps/monitor/queries.py`:
  - the `TweetQueries` read queries;
  - the ingestion of Twitter JSON (`create_from_json`);
  - `HashtagQueries`;
  - `UserQueries.create_from_json`.

The database is a value, `Models.Store`, with three maps:

- hashtag name to colour;
- user id to `User`;
- tweet id to `Tweet`, with the many-to-many hashtag relation held as a set of names
  on each tweet.

Every operation is a pure function from a store to a result. `Models.Valid` is the
invariant the database keeps:

- validated rows;
- at most 400 hashtags;
- no two names equal up to case;
- every foreign key resolves;
- tags name stored hashtags;
- a retweet has retweet count 0.

Every writing operation is proved to preserve `Models.Valid`.

| file | module | models |
|---|---|---|
| `results.dfy` | `Results` | `Option` and `Result` (the `ValidationError` / `ObjectDoesNotExist` paths) |
| `text.dfy` | `Text` | ASCII case folding (`iexact`) and the name order (`order_by('name')`) |
| `folds.dfy` | `Folds` | `MIN`, `MAX` and `SUM` over id sets, and duplicate-free listings |
| `models.dfy` | `Models` | rows, validators, `Tweet.save`, `get_since_id`, `get_max_id` |
| `cascade.dfy` | `Cascade` | `on_delete=CASCADE` closure and the hashtag `pre_delete` receiver |
| `tweet_queries.dfy` | `TweetQueries` | `get_tweets_per_lang` |
| `tweets_per_day.dfy` | `TweetsPerDay` | `get_hashtag_tweets_per_day` |
| `feed.dfy` | `Feed` | `get_summary` and `get_latest_tweets` |
| `ingest.dfy` | `Ingest` | `UserQueries.create_from_json` and `TweetQueries.create_from_json` |
| `hashtag_queries.dfy` | `HashtagQueries` | `HashtagQueries` |

Modelling choices:

- **Randomness.** The random colour pick is a `draw: nat` parameter. The model uses
  `Palette[draw % 80]`.
- **The clock.** "Today" is a `today` parameter, a day number. A timestamp is whole
  seconds since the epoch, and its day is `ts / 86400`. `User.created_at` is a
  `DateField`, so a user row keeps only the day of the payload's timestamp.
- **Language ranking.** The grouped language query orders by count, and the database
  may return tied rows in any order. So `get_tweets_per_lang` takes the row lists as
  input, each constrained by `TweetQueries.IsRanking` to be a correct ranking of the
  tweets in scope. With `top > 0` the lazy query runs as three SQL statements
  (`query[:top]`, `query[top:]` and `query`). The first and last share one ranking,
  `rows`, and the middle one gets its own, `rest`.
- **No hashtag.** The empty string stands for `hashtag_name=None`, because Python
  treats `""` and `None` alike in `if hashtag_name:`.
- **Transactions.** A failed `create_from_json` batch (`transaction.atomic`) is a
  `Failure`, and the caller keeps its old store.

Behaviours of the code that the model keeps as written:

- `users` in the summary counts authors per tweet, not distinct authors.
- The per-day chart pre-fills only the `n - 1` days before today.
- The hashtag capacity check is `count == 400`.
- All failing name validators are reported together.
- No code deletes authors left without tweets.
- Deleting a hashtag deletes every tweet tagged with it alone, and then, through
  `on_delete=CASCADE`, every tweet that quotes or retweets one of those, whatever
  its own tags (`Cascade.MultiTaggedQuoterDeleted`).

## Model

| member | source | states |
|---|---|---|
| Text.Lower | hashtag_monitor/apps/monitor/models.py:29-34 | case folding keeps the length and lower-cases each ASCII letter, so `iexact` compares folded names |
| Text.NotAfterTotal | hashtag_monitor/apps/monitor/queries.py:155-156 | any two names are ordered one way or the other |
| Text.NotAfterTransitive | hashtag_monitor/apps/monitor/queries.py:155-156 | the name order is transitive |
| Text.NotAfterAntisymmetric | hashtag_monitor/apps/monitor/queries.py:155-156 | two names ordered both ways are equal, so `order_by('name')` has one answer |
| Folds.SumOfEnumeration | hashtag_monitor/apps/monitor/queries.py:62-66 | `Sum` over a set equals the sum along any duplicate-free listing of it, whatever order the rows come in |
| Models.NameErrors | hashtag_monitor/apps/monitor/models.py:12-54 | a name has no errors exactly when it starts with `#` and has 2 to 500 characters, matches no stored name up to case, and the store does not hold 400 hashtags; a blank name reports only that it is blank |
| Models.PickColor | hashtag_monitor/apps/monitor/models.py:62-65 | every draw yields a palette colour |
| Models.PickColorCoversPalette | hashtag_monitor/apps/monitor/models.py:42-43 | every palette colour is the result of some draw |
| Models.InitialColor | hashtag_monitor/apps/monitor/models.py:62-65 | an absent or empty colour is replaced by a palette colour; a given colour is kept |
| Models.CreateHashtag | hashtag_monitor/apps/monitor/models.py:46-72 | creation succeeds exactly when the name validators and the colour choice constraint pass; failure carries at least one error; success adds exactly that name with a palette colour, the given one if any, and changes nothing else |
| Models.CreateHashtagPreservesValid | hashtag_monitor/apps/monitor/models.py:37-72 | a successful creation keeps the store valid and grows the hashtag count by one |
| Models.AddHashtagPreservesValid | hashtag_monitor/apps/monitor/models.py:29-39 | adding a well-formed name with no case-insensitive match below capacity keeps the store valid |
| Models.NewNameKeepsNamesDistinct | hashtag_monitor/apps/monitor/models.py:29-34 | names stay distinct up to case after adding a name that matches none |
| Models.UserErrors | hashtag_monitor/apps/monitor/models.py:75-105 | `User.full_clean` reports no error exactly when name and screen name are non-empty and at most 100 characters |
| Models.WithRetweetReset | hashtag_monitor/apps/monitor/models.py:161-163 | a retweet gets retweet count 0; a non-retweet is untouched; no other field changes |
| Models.TweetErrors | hashtag_monitor/apps/monitor/models.py:108-166 | a tweet has no error exactly when its fields are within their bounds, its foreign keys resolve and its id is new |
| Models.SaveTweet | hashtag_monitor/apps/monitor/models.py:161-166 | saving succeeds exactly when the tweet is clean; the saved row is the given tweet with no tags and, for a retweet, retweet count 0; nothing else changes |
| Models.SaveTweetPreservesValid | hashtag_monitor/apps/monitor/models.py:108-166 | a saved tweet keeps the store valid |
| Models.SinceId | hashtag_monitor/apps/monitor/models.py:168-176 | `None` exactly when no tweet is in scope; otherwise the greatest id in scope |
| Models.MaxId | hashtag_monitor/apps/monitor/models.py:178-186 | `None` exactly when no tweet is in scope; otherwise the least id in scope, never above the since-id |
| Cascade.CascadeSet | hashtag_monitor/apps/monitor/models.py:110-123 | the deleted set contains the seed and is closed under quoted/retweeted references |
| Cascade.CascadeSetIsLeast | hashtag_monitor/apps/monitor/models.py:110-121 | the cascade deletes no more than any reference-closed set containing the seed |
| Cascade.StandaloneTweetOnlyDeletedIfSeeded | hashtag_monitor/apps/monitor/models.py:110-121 | a tweet quoting and retweeting nothing is deleted only if it is itself in the seed |
| Cascade.RemoveClosedPreservesValid | hashtag_monitor/apps/monitor/models.py:110-123 | removing a reference-closed set leaves no dangling key and keeps the store valid |
| Cascade.DeleteTweet | hashtag_monitor/apps/monitor/models.py:110-121 | deleting a tweet removes exactly its cascade; survivors are unchanged and refer to nothing removed |
| Cascade.DeleteTweetPreservesValid | hashtag_monitor/apps/monitor/models.py:110-121 | deleting a tweet keeps the store valid |
| Cascade.DeleteUser | hashtag_monitor/apps/monitor/models.py:123 | deleting a user removes that user and the cascade of the user's tweets; no survivor is by that user |
| Cascade.DeleteUserPreservesValid | hashtag_monitor/apps/monitor/models.py:123 | deleting a user keeps the store valid |
| Cascade.DeleteHashtag | hashtag_monitor/apps/monitor/models.py:189-193 | deleting a hashtag removes the cascade of the tweets tagged with it alone; survivors only lose that tag |
| Cascade.MultiTaggedStandaloneTweetSurvives | hashtag_monitor/apps/monitor/models.py:189-193 | a standalone tweet with another tag survives and loses only the deleted tag |
| Cascade.ReferrerOfOnlyTaggedDeleted | hashtag_monitor/apps/monitor/models.py:110-121 | a tweet that quotes or retweets a tweet tagged only with the deleted hashtag is deleted too, whatever its own tags |
| Cascade.MultiTaggedQuoterDeleted | hashtag_monitor/apps/monitor/models.py:189-193 | a tweet tagged with two hashtags that quotes a tweet tagged with one of them alone is deleted with that hashtag |
| Cascade.DeleteHashtagPreservesValid | hashtag_monitor/apps/monitor/models.py:189-193 | deleting a hashtag keeps the store valid |
| TweetQueries.LangMap | hashtag_monitor/apps/monitor/queries.py:29-30 | the per-language map holds every ranked language except `und` |
| TweetQueries.LangMapValue | hashtag_monitor/apps/monitor/queries.py:29-30 | with distinct languages, each non-`und` row's count is its entry |
| TweetQueries.TweetsPerLang | hashtag_monitor/apps/monitor/queries.py:14-33 | `und` never has an entry and `others` always does; with `top > 0` at most `top` languages are listed; otherwise every tweet's language maps to its exact count and `others` counts the undetermined tweets |
| TweetQueries.WholeBreakdown | hashtag_monitor/apps/monitor/queries.py:28-32 | without a cut, the entries are exactly the determined ranked languages plus `others`; each tweet's language maps to its exact count and `others` to the undetermined tweets |
| TweetQueries.CutBreakdown | hashtag_monitor/apps/monitor/queries.py:21-27 | the cut keeps the determined languages of the first `k` rows of `query[:top]` with their counts; `others` sums the determined rows of `query[top:]` and every `und` row of `query` |
| TweetQueries.UndeterminedCount | hashtag_monitor/apps/monitor/queries.py:26-27 | the `und` rows sum to the number of undetermined tweets in scope |
| TweetQueries.OthersNotRanked | hashtag_monitor/apps/monitor/models.py:131-135 | a language code has at most 3 characters, so no ranked language is `others` |
| TweetQueries.OthersBucket | hashtag_monitor/apps/monitor/queries.py:24-27 | with a cut, when `query[top:]` cuts off the same languages as the ranking of `query[:top]`, `others` equals the number of tweets whose language has no entry |
| TweetQueries.PartitionWithCut | hashtag_monitor/apps/monitor/queries.py:21-27 | with `top > 0` and both statements cutting off the same languages, each entry is its language's exact count and `others` counts the tweets without an entry |
| TweetQueries.CutPartition | hashtag_monitor/apps/monitor/queries.py:21-27 | a cut after `k` rows of one ranking and `j` rows of another, whose tails hold the same languages, is a partition of the tweets in scope |
| TweetQueries.SameCutOff | hashtag_monitor/apps/monitor/queries.py:21-27 | when the counts on either side of the cut differ, any two rankings of the same tweets cut off the same languages, so the separate statements agree |
| TweetQueries.PartitionWithoutCut | hashtag_monitor/apps/monitor/queries.py:28-32 | with `top <= 0`, each entry is its language's exact count and `others` counts the tweets without an entry |
| TweetQueries.TweetsPerLangPartition | hashtag_monitor/apps/monitor/queries.py:14-33 | when no tie straddles the cut, the breakdown partitions the tweets in scope by language: every entry is exact and `others` holds exactly the rest |
| TweetQueries.TweetsPerLangTotal | hashtag_monitor/apps/monitor/queries.py:14-33 | when no tie straddles the cut, the values of the breakdown add up to the number of tweets in scope |
| TweetQueries.TieAtCutMiscounts | hashtag_monitor/apps/monitor/queries.py:21-27 | a valid store with one `und` and one `en` tweet and both orders of the tied rows: with `top = 1` the breakdown is `{others: 1}`, counting 1 of the 2 tweets |
| TweetQueries.TweetsPerLangOnce | hashtag_monitor/apps/monitor/queries.py:14-33 | the breakdown cut from one evaluation of the query: `und` has no entry, at most `top` languages are listed, it partitions the tweets in scope and its values add up to their number, whatever the ties |
| TweetsPerDay.ActiveDay | hashtag_monitor/apps/monitor/queries.py:48-49 | the grouped query has a row for a day exactly when the day is inside the window and the hashtag has tweets that day |
| TweetsPerDay.Counts | hashtag_monitor/apps/monitor/queries.py:48-53 | the query rows list exactly the in-window days with tweets, each with its exact tweet count |
| TweetsPerDay.Days | hashtag_monitor/apps/monitor/queries.py:38-53 | a day is listed exactly when it is one of the `n - 1` days before today, or it is today or later with tweets; every listed day carries its exact tweet count |
| TweetsPerDay.HashtagTweetsPerDay | hashtag_monitor/apps/monitor/queries.py:36-54 | one series per hashtag, in the hashtag's colour, with its day counts |
| TweetsPerDay.WindowWithoutToday | hashtag_monitor/apps/monitor/queries.py:42-53 | a hashtag with no tweet today or later gets exactly the `n - 1` days before today |
| TweetsPerDay.WindowWithToday | hashtag_monitor/apps/monitor/queries.py:42-53 | a hashtag with tweets today and none later gets exactly the `n` days ending today |
| TweetsPerDay.TwoDayExample | hashtag_monitor/apps/monitor/queries.py:42-43 | a two-day window for a hashtag without tweets lists only yesterday, with 0 |
| Feed.GetSummary | hashtag_monitor/apps/monitor/queries.py:57-67 | `tweetsCount` is the number of tweets in scope; `users` equals it, because `Count('author')` is not distinct; no tweets gives all zeros |
| Feed.SummaryAddsUpRows | hashtag_monitor/apps/monitor/queries.py:62-66 | reach and retweet count are the sums of followers and retweets along any duplicate-free listing of the tweets in scope |
| Feed.SummaryUniformReach | hashtag_monitor/apps/monitor/queries.py:62 | when every author in scope has `c` followers, the reach is `c` times the tweet count |
| Feed.HashtagSummaryWithinGlobal | hashtag_monitor/apps/monitor/queries.py:57-67 | with non-negative counters, a hashtag's summary never exceeds the global one in any field |
| Feed.LatestFrom | hashtag_monitor/apps/monitor/queries.py:73-76 | takes `min(count, size)` distinct ids from the set, newest first, and no omitted id is newer than a listed one |
| Feed.GetLatestTweets | hashtag_monitor/apps/monitor/queries.py:70-77 | the latest tweets are the newest `count` tweets in scope, without duplicates, in non-increasing creation time |
| Feed.LatestCoversSummary | hashtag_monitor/apps/monitor/queries.py:70-77 | asking for at least the summary's tweet count lists every tweet the summary counts |
| Ingest.UpsertUser | hashtag_monitor/apps/monitor/queries.py:186-199 | the upsert succeeds exactly when the user row is valid, and a failure reports an error; it writes the payload's names and image, the day of its creation timestamp, and 0 for missing counts, and changes no other user |
| Ingest.UpsertUserIdempotent | hashtag_monitor/apps/monitor/queries.py:186-199 | upserting the same payload twice equals upserting it once |
| Ingest.UpsertUserPreservesValid | hashtag_monitor/apps/monitor/queries.py:186-199 | a successful upsert keeps the store valid |
| Ingest.Matches | hashtag_monitor/apps/monitor/queries.py:105-109 | a mention resolves only to stored hashtags equal to `#` plus the mention up to case |
| Ingest.MentionTags | hashtag_monitor/apps/monitor/queries.py:98-109 | the mentions resolve to stored hashtags only |
| Ingest.Attach | hashtag_monitor/apps/monitor/queries.py:111-128 | fails exactly on an invalid author or an unsaveable new tweet; `created` exactly when the id is new; an existing row only gains the tags; a new row is the payload with the retweet reset and the tags; no other tweet changes |
| Ingest.AttachPreservesValid | hashtag_monitor/apps/monitor/queries.py:111-128 | attaching stored tags keeps the store valid |
| Ingest.AddTagsPreservesValid | hashtag_monitor/apps/monitor/queries.py:127-128 | adding stored hashtags to a stored tweet keeps the store valid |
| Ingest.Resolve | hashtag_monitor/apps/monitor/queries.py:81-129 | a successful resolution stores the payload's own tweet |
| Ingest.Follow | hashtag_monitor/apps/monitor/queries.py:88-96 | an absent sub-payload links nothing; a present one is stored, linked by id, and passes its stored tags up |
| Ingest.ResolveGrows | hashtag_monitor/apps/monitor/queries.py:81-129 | resolution adds exactly the payload tree's statuses and authors, changes no other tweet or user and only adds tags to stored tweets; `created` exactly when the outer id was neither stored nor embedded in the tree |
| Ingest.FollowGrows | hashtag_monitor/apps/monitor/queries.py:88-96 | following a sub-payload adds exactly its statuses and authors, changes no other tweet or user and only adds tags to stored tweets |
| Ingest.ResolvePreservesValid | hashtag_monitor/apps/monitor/queries.py:81-129 | resolving a payload keeps the store valid |
| Ingest.FollowPreservesValid | hashtag_monitor/apps/monitor/queries.py:88-96 | following a sub-payload keeps the store valid |
| Ingest.FollowTagsStored | hashtag_monitor/apps/monitor/queries.py:90-96 | the tags a sub-tweet passes up are stored hashtags |
| Ingest.ResolveTags | hashtag_monitor/apps/monitor/queries.py:85-128 | the stored tweet carries at least its fetch hashtag, the tags of its quoted and retweeted tweets and its resolved mentions, recursively |
| Ingest.FollowTags | hashtag_monitor/apps/monitor/queries.py:88-96 | a sub-tweet passes up at least its accumulated tags |
| Ingest.ResolveExactTags | hashtag_monitor/apps/monitor/queries.py:85-128 | with no id repeated in the payload, the stored tweet holds exactly its old tags, its fetch hashtag, the resulting tags of its quoted and retweeted tweets and its resolved mentions |
| Ingest.FollowExactTags | hashtag_monitor/apps/monitor/queries.py:88-96 | with no id repeated, a sub-tweet passes up exactly the tags it holds once resolved |
| Ingest.ResolveFreshTags | hashtag_monitor/apps/monitor/queries.py:85-128 | with no id repeated and no embedded status stored, the outer tweet holds its old tags (none if new) plus exactly its accumulated tags |
| Ingest.ResolveValidatedAuthors | hashtag_monitor/apps/monitor/queries.py:85-112 | success implies every author in the tree is valid and the fetch hashtag exists |
| Ingest.FollowValidatedAuthors | hashtag_monitor/apps/monitor/queries.py:88-96 | success implies every author of the sub-payload is valid |
| Ingest.ResolveStoredPayload | hashtag_monitor/apps/monitor/queries.py:113-126 | a payload whose ids are all stored, with valid authors and known hashtags, succeeds and creates nothing |
| Ingest.FollowStoredPayload | hashtag_monitor/apps/monitor/queries.py:88-96 | a stored sub-payload with valid authors and known hashtags succeeds |
| Ingest.CreateFromJson | hashtag_monitor/apps/monitor/queries.py:80-137 | a non-empty batch for an unknown hashtag fails with that hashtag; an empty batch succeeds and creates nothing |
| Ingest.BatchGrows | hashtag_monitor/apps/monitor/queries.py:130-137 | a batch adds exactly the statuses and authors of its payloads, changes no other tweet or user and only adds tags to stored tweets; the created list is duplicate-free and holds only new top-level ids |
| Ingest.BatchPreservesValid | hashtag_monitor/apps/monitor/queries.py:130-137 | a successful batch keeps the store valid |
| Ingest.BatchListsFresh | hashtag_monitor/apps/monitor/queries.py:133-136 | a new top-level id that does not occur nested in the batch is in the created list |
| Ingest.BatchCreatedExactly | hashtag_monitor/apps/monitor/queries.py:130-137 | the created list is, in input order, the outer ids that were new when their payload's turn came and are not embedded in that payload |
| Ingest.BatchListsExactly | hashtag_monitor/apps/monitor/queries.py:130-137 | an id is listed as created exactly when some payload has it as outer id and it was not stored, not among the ids of the earlier payloads, and not embedded in that payload |
| Ingest.BatchInInputOrder | hashtag_monitor/apps/monitor/queries.py:131-137 | the created list takes outer ids in the order their payloads come, never going back |
| Ingest.BatchValidatedAuthors | hashtag_monitor/apps/monitor/queries.py:130-137 | a successful batch had valid authors throughout and, when non-empty, a stored fetch hashtag |
| Ingest.BatchOfStored | hashtag_monitor/apps/monitor/queries.py:130-137 | a batch of already stored tweets with valid authors succeeds and creates nothing |
| Ingest.BatchRepeat | hashtag_monitor/apps/monitor/queries.py:130-137 | repeating a successful batch succeeds, creates nothing and adds no tweet |
| Ingest.BatchTags | hashtag_monitor/apps/monitor/queries.py:130-137 | every payload of a successful batch is stored with at least its accumulated tags, including the fetch hashtag |
| Ingest.BatchExactTags | hashtag_monitor/apps/monitor/queries.py:130-137 | in a batch with no repeated id, every outer tweet holds exactly the tags its payload gathers against the starting store |
| Ingest.BatchFreshTags | hashtag_monitor/apps/monitor/queries.py:130-137 | in a batch of new statuses with no repeated id, every outer tweet holds exactly its accumulated tags |
| HashtagQueries.GetOrCreate | hashtag_monitor/apps/monitor/queries.py:141-146 | an existing name returns the store unchanged; otherwise creation fails exactly when validation does, and success adds only that name with a palette colour |
| HashtagQueries.GetOrCreatePreservesValid | hashtag_monitor/apps/monitor/queries.py:141-146 | get-or-create keeps the store valid |
| HashtagQueries.TweetsCountPerHashtag | hashtag_monitor/apps/monitor/queries.py:149-152 | one entry per hashtag in its colour; the count equals the hashtag summary's tweet count and is 0 exactly when the hashtag has no since-id |
| HashtagQueries.CountWithinTweets | hashtag_monitor/apps/monitor/queries.py:149-152 | no hashtag counts more tweets than are stored |
| HashtagQueries.Insert | hashtag_monitor/apps/monitor/queries.py:155-156 | inserting a name adds exactly that name |
| HashtagQueries.InsertSorted | hashtag_monitor/apps/monitor/queries.py:155-156 | inserting a new name into an ascending listing keeps it ascending and duplicate-free |
| HashtagQueries.HashtagsSorted | hashtag_monitor/apps/monitor/queries.py:155-156 | lists every hashtag name exactly once, in ascending name order |
| HashtagQueries.SortedListingUnique | hashtag_monitor/apps/monitor/queries.py:155-156 | two ascending duplicate-free listings of the same names are equal, so the listing is determined |
| HashtagQueries.DeleteIfExists | hashtag_monitor/apps/monitor/queries.py:158-167 | returns true exactly when the name existed; afterwards the name is gone and the other hashtags remain; a missing name changes nothing |
| HashtagQueries.DeleteIfExistsPreservesValid | hashtag_monitor/apps/monitor/queries.py:158-167 | deletion keeps the store valid |

## Left out

- `tasks.py`, `views.py`, `consumers.py`, `forms.py`, `serializers.py`, routing and migrations are not part of this model. They are the Celery paging loop, HTTP and WebSocket glue, and schema history, not the data layer.
- `UserQueries.update_or_create` (`queries.py:172-184`) is not modelled. It reads a tweepy object and writes a `location` field that `User` does not have.
- `twitter_utils.convert_to_datetime` is not part of this model. Payload timestamps arrive already converted to seconds.
- Random numbers, the clock and the database are parameters or values: `draw`, `today` and `Store`. Transactions are modelled by returning `Failure` and leaving the caller's store as it was. Concurrency is not modelled.
- `User.profile_image` URL validation, the 32- and 64-bit ranges of the `IntegerField` and `BigIntegerField` columns, and timezone conversion before `created_at__date` are not modelled. Integers are unbounded, and `Day` is a plain division of UTC seconds.
- A payload is a complete record. A missing required JSON key (a `KeyError` in the source) and a `lang` that is present but `null` cannot be expressed.
- TweetsPerDay.HashtagTweetsPerDay: keys are day numbers, not `strftime("%d/%m")` strings. The source maps days a year apart to the same key; the model does not.
- TweetQueries.TweetsPerLang: the database's ordering of tied language counts is an input (`IsRanking`), not computed.
- HashtagQueries.HashtagsSorted: the name order is character-code lexicographic, standing in for the database collation.
- Feed.GetLatestTweets: ties in `created_at` are broken by the larger id. The database leaves their order open. `count` is a `nat`, so a negative slice bound is not modelled.
- Ingest.BatchRepeat: a repeated batch creates nothing and adds no tweet. It may still add tags to tweets the first run only saw as a quoted tweet, so the stores are not proved equal.
- Ingest.CreateFromJson: its own contract covers only the unknown-hashtag failure and the empty batch. The rest of its behaviour is stated by the `Batch…` lemmas.
- TweetQueries.OthersBucket: assumes the rows `query[top:]` returns hold the same languages as the rows cut off the ranking of `query[:top]`. Separate statements may order ties differently (see Findings).
- TweetQueries.PartitionWithCut: assumes both statements cut off the same languages; `SameCutOff` derives this when no tie straddles the cut.
- TweetQueries.TweetsPerLangPartition: proved only when no tie straddles the cut. With such a tie the statements may disagree, and the result is no partition (`TieAtCutMiscounts`).
- TweetQueries.TweetsPerLangTotal: proved only when no tie straddles the cut, for the same reason. `TweetsPerLangOnce` holds whatever the ties.
- Ingest.Resolve: its own contract says only that the payload's tweet is stored under its id. What it stores and which tags it adds are stated by `ResolveGrows`, `ResolveExactTags` and `ResolveTags`.
- Ingest.ResolveTags: a lower bound. It leaves out the tags the tweet and its embedded statuses already held, and a payload that repeats an id may pass up tags an earlier part of it added. `ResolveExactTags` gives the exact set when no id repeats, and `ResolveFreshTags` when, in addition, no embedded status was stored.
- Ingest.FollowTags: a lower bound, for the same reason; `FollowExactTags` is exact when no id repeats.
- Ingest.BatchTags: a lower bound, for the same reason; `BatchExactTags` is exact when no id repeats in the batch.
- Ingest.BatchListsFresh: one direction only; `BatchListsExactly` states the full condition.
- Tag sets after a payload or batch that repeats a status id are bounded from below only. No exact formula is given for them.

## Findings

| source | as written | input that shows it | evidently intended | confidence | as-written member | corrected member |
|---|---|---|---|---|---|---|
| hashtag_monitor/apps/monitor/queries.py:21-27 | with `top > 0` the kept rows (`query[:top]`), the cut-off rows (`query[top:]`) and the undetermined rows (`query`) come from three separate SQL statements, and each may order tied counts its own way | one `und` and one `en` tweet, `top = 1`: `query[:1]` returns the `und` row first and `query[1:]` returns it last, so the result is `{"others": 1}` for 2 tweets | one evaluation of the query, cut in memory, so every tweet is counted once | low, not executed: it depends on the database ordering ties differently across statements | TweetQueries.TieAtCutMiscounts | TweetQueries.TweetsPerLangOnce |

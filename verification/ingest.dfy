/** `TweetQueries.create_from_json` and `UserQueries.create_from_json`: turning
    streamed status payloads into rows. A payload may embed the status it
    quotes and the status it retweets; those are stored first, their tags flow
    up into the embedding tweet, the author is upserted, and the tweet row is
    created unless one with its id already exists. */
module Ingest {
  import opened Results
  import opened Text
  import opened Models
  import Folds

  // ------------------------------------------------------------------ Users

  /** The `user` object of a status payload; the counts and the image may be
      missing from the JSON. */
  datatype UserPayload = UserPayload(
    id: int,
    name: string,
    screenName: string,
    createdAt: int,              // timestamp in seconds
    friendsCount: Option<int>,
    followersCount: Option<int>,
    profileImage: Option<string>)

  /** The row the payload describes: missing counts are 0, a missing image is
      null, and the `created_at` timestamp (seconds) is kept as its date. */
  function UserOf(u: UserPayload): User {
    User(u.name, u.screenName, Day(u.createdAt), u.friendsCount.GetOr(0), u.followersCount.GetOr(0), u.profileImage)
  }

  /** `UserQueries.create_from_json`: `update_or_create` by id, validated by
      `User.save`. Any previous row with that id is overwritten; no other
      user changes. */
  function UpsertUser(s: Store, u: UserPayload): (r: Result<Store, set<UserError>>)
    ensures r.Success? <==> UserValid(UserOf(u))
    ensures r.Failure? ==> r.error != {}
    ensures r.Success? ==>
      && u.id in r.value.users
      && r.value == s.(users := s.users[u.id := r.value.users[u.id]])
      && r.value.users[u.id].name == u.name
      && r.value.users[u.id].screenName == u.screenName
      && r.value.users[u.id].createdAt * SecondsPerDay <= u.createdAt < (r.value.users[u.id].createdAt + 1) * SecondsPerDay
      && r.value.users[u.id].friendsCount == (if u.friendsCount.Some? then u.friendsCount.value else 0)
      && r.value.users[u.id].followersCount == (if u.followersCount.Some? then u.followersCount.value else 0)
      && r.value.users[u.id].profileImage == u.profileImage
  {
    var errs := UserErrors(UserOf(u));
    if errs != {} then Failure(errs) else Success(s.(users := s.users[u.id := UserOf(u)]))
  }

  /** Upserting the same user twice leaves the store as once. */
  lemma UpsertUserIdempotent(s: Store, u: UserPayload)
    requires UpsertUser(s, u).Success?
    ensures UpsertUser(UpsertUser(s, u).value, u) == UpsertUser(s, u)
  {
    var s1 := UpsertUser(s, u).value;
    assert s1.users[u.id := UserOf(u)] == s1.users;
  }

  /** Upserting a user keeps the database invariant. */
  lemma UpsertUserPreservesValid(s: Store, u: UserPayload)
    requires Valid(s) && UpsertUser(s, u).Success?
    ensures Valid(UpsertUser(s, u).value)
  {
    var s1 := UpsertUser(s, u).value;
    forall id | id in s1.tweets
      ensures TweetValid(s1, s1.tweets[id])
    {
      assert TweetValid(s, s.tweets[id]);
    }
  }

  // --------------------------------------------------------------- Payloads

  /** The `extended_tweet` object of a long status. */
  datatype Extended = Extended(fullText: Option<string>, mentions: seq<string>)

  /** A status payload. `mentions` are the texts of `entities.hashtags`
      (without `#`); `quoted` and `retweeted` are the embedded
      `quoted_status` and `retweeted_status`. */
  datatype Payload = Payload(
    id: int,
    text: string,
    createdAt: int,
    lang: Option<string>,
    retweetCount: Option<int>,
    source: Option<string>,
    filterLevel: Option<string>,
    mentions: seq<string>,
    extended: Option<Extended>,
    user: UserPayload,
    quoted: Option<Payload>,
    retweeted: Option<Payload>)

  /** The tweet text: the extended full text when there is one. */
  function Body(p: Payload): string {
    if p.extended.Some? then p.extended.value.fullText.GetOr(p.text) else p.text
  }

  /** The hashtag mentions: those of the extended object when there is one. */
  function Mentions(p: Payload): seq<string> {
    if p.extended.Some? then p.extended.value.mentions else p.mentions
  }

  /** Every status id in a payload, embedded ones included. */
  function Ids(p: Payload): set<int>
    decreases p, 1
  {
    {p.id} + OptIds(p.quoted) + OptIds(p.retweeted)
  }

  function OptIds(o: Option<Payload>): set<int>
    decreases o, 0
  {
    if o.Some? then Ids(o.value) else {}
  }

  /** The ids of the embedded statuses, at any depth. */
  function NestedIds(p: Payload): set<int> {
    OptIds(p.quoted) + OptIds(p.retweeted)
  }

  /** Every author id in a payload, embedded ones included. */
  function Authors(p: Payload): set<int>
    decreases p, 1
  {
    {p.user.id} + OptAuthors(p.quoted) + OptAuthors(p.retweeted)
  }

  function OptAuthors(o: Option<Payload>): set<int>
    decreases o, 0
  {
    if o.Some? then Authors(o.value) else {}
  }

  // --------------------------------------------------------------- Mentions

  /** The stored hashtags whose name is `#` followed by the mention, ignoring
      case (`filter(pk__iexact=...)`). */
  function Matches(hs: map<string, string>, mention: string): (r: set<string>)
    ensures r <= hs.Keys
  {
    set k | k in hs && SameIgnoringCase(k, "#" + mention)
  }

  /** A mention matches at most one stored hashtag, so `.first()` picks the
      only match there is. */
  lemma MatchesAtMostOne(hs: map<string, string>, mention: string, a: string, b: string)
    requires HashtagsValid(hs)
    requires a in Matches(hs, mention) && b in Matches(hs, mention)
    ensures a == b
  {
  }

  /** The tags the mentions contribute; a mention matching no stored
      hashtag contributes nothing and never creates one. */
  function MentionTags(hs: map<string, string>, mentions: seq<string>): (r: set<string>)
    ensures r <= hs.Keys
  {
    set i, k | 0 <= i < |mentions| && k in Matches(hs, mentions[i]) :: k
  }

  // --------------------------------------------------------------- Resolver

  datatype IngestError =
    | UnknownHashtag(name: string)              // Hashtag.DoesNotExist
    | InvalidUser(userErrors: set<UserError>)   // User.full_clean
    | InvalidTweet(tweetErrors: set<TweetError>) // Tweet.full_clean

  /** The outcome of resolving one payload: the store, the tweet's id, and
      whether `get_or_create` created the row. */
  datatype Resolved = Resolved(store: Store, id: int, created: bool)

  /** The outcome of resolving an optional embedded payload: the store, the
      reference to put in the embedding tweet, and the tags it passes up. */
  datatype Link = Link(store: Store, ref: Option<int>, tags: set<string>)

  /** The tag the resolver fetches for a payload, if any ("" stands for None). */
  function Own(tag: string): set<string> {
    if tag != "" then {tag} else {}
  }

  /** The row `get_or_create` builds for a payload it has not seen:
      language `und` and retweet count 0 by default, no url. */
  function NewTweet(p: Payload, quoted: Option<int>, retweeted: Option<int>): Tweet {
    Tweet(p.user.id, quoted, retweeted, {}, p.createdAt, Body(p), p.lang.GetOr(Undetermined),
      p.retweetCount.GetOr(0), p.source, None, p.filterLevel)
  }

  /** `tweet.hashtags.add(...)` for every tag in `tags`. */
  function AddTags(s: Store, id: int, tags: set<string>): Store
    requires id in s.tweets
  {
    s.(tweets := s.tweets[id := s.tweets[id].(hashtags := s.tweets[id].hashtags + tags)])
  }

  /** The tail of `create_tweet`: upsert the author, `get_or_create` the
      tweet by id, then add `tags` to whichever row that returned. An
      existing row keeps its fields; only its tag set grows. */
  function Attach(s: Store, p: Payload, tags: set<string>, quoted: Option<int>, retweeted: Option<int>)
    : (r: Result<Resolved, IngestError>)
    ensures r.Failure? <==>
      || !UserValid(UserOf(p.user))
      || (p.id !in s.tweets && !(
            && FieldsWithinBounds(NewTweet(p, quoted, retweeted))
            && (quoted.Some? ==> quoted.value in s.tweets)
            && (retweeted.Some? ==> retweeted.value in s.tweets)))
    ensures r.Success? ==>
      && r.value.id == p.id
      && (r.value.created <==> p.id !in s.tweets)
      && r.value.store.tweets.Keys == s.tweets.Keys + {p.id}
      && r.value.store.hashtags == s.hashtags
      && r.value.store.users.Keys == s.users.Keys + {p.user.id}
      && (forall id :: id in s.tweets && id != p.id ==> r.value.store.tweets[id] == s.tweets[id])
    ensures r.Success? && !r.value.created ==>
      r.value.store.tweets[p.id] == s.tweets[p.id].(hashtags := s.tweets[p.id].hashtags + tags)
    ensures r.Success? && r.value.created ==>
      r.value.store.tweets[p.id] == WithRetweetReset(NewTweet(p, quoted, retweeted)).(hashtags := tags)
  {
    match UpsertUser(s, p.user)
    case Failure(e) => Failure(InvalidUser(e))
    case Success(s1) =>
      if p.id in s1.tweets then
        Success(Resolved(AddTags(s1, p.id, tags), p.id, false))
      else
        match SaveTweet(s1, p.id, NewTweet(p, quoted, retweeted))
        case Failure(e) => Failure(InvalidTweet(e))
        case Success(s2) => Success(Resolved(AddTags(s2, p.id, tags), p.id, true))
  }

  /** `create_tweet(data, hashtag)`. `tag` is the hashtag fetched for this
      payload and `batch` the `hashtag_name` of the whole call: a quoted
      status is resolved with no tag, a retweeted one under `batch`. */
  function Resolve(s: Store, p: Payload, tag: string, batch: string): (r: Result<Resolved, IngestError>)
    ensures r.Success? ==> r.value.id == p.id && p.id in r.value.store.tweets
    decreases p, 1
  {
    if tag != "" && tag !in s.hashtags then
      Failure(UnknownHashtag(tag))
    else
      match Follow(s, p.quoted, "", batch)
      case Failure(e) => Failure(e)
      case Success(q) =>
        match Follow(q.store, p.retweeted, batch, batch)
        case Failure(e) => Failure(e)
        case Success(rt) =>
          Attach(rt.store, p, Own(tag) + q.tags + rt.tags + MentionTags(rt.store.hashtags, Mentions(p)), q.ref, rt.ref)
  }

  /** Resolves an embedded payload, if present, and passes up the stored tweet
      and its whole tag set (`quoted_tweet.hashtags.all()`). */
  function Follow(s: Store, o: Option<Payload>, tag: string, batch: string): (r: Result<Link, IngestError>)
    ensures o.None? ==> r == Success(Link(s, None, {}))
    ensures r.Success? && o.Some? ==>
      && r.value.ref == Some(o.value.id)
      && o.value.id in r.value.store.tweets
      && r.value.tags == r.value.store.tweets[o.value.id].hashtags
    decreases o, 0
  {
    if o.None? then Success(Link(s, None, {}))
    else
      match Resolve(s, o.value, tag, batch)
      case Failure(e) => Failure(e)
      case Success(res) => Success(Link(res.store, Some(res.id), res.store.tweets[res.id].hashtags))
  }

  /** The tags a payload is certain to end up with, whatever the store held
      before: its fetched tag, those of its embedded statuses (a quoted one
      fetched with no tag, a retweeted one with the batch tag), and the
      stored hashtags its mentions name. */
  function Accumulated(hs: map<string, string>, p: Payload, tag: string, batch: string): set<string>
    decreases p, 1
  {
    Own(tag)
    + OptAccumulated(hs, p.quoted, "", batch)
    + OptAccumulated(hs, p.retweeted, batch, batch)
    + MentionTags(hs, Mentions(p))
  }

  function OptAccumulated(hs: map<string, string>, o: Option<Payload>, tag: string, batch: string): set<string>
    decreases o, 0
  {
    if o.Some? then Accumulated(hs, o.value, tag, batch) else {}
  }

  /** The tags stored for `id`, none when it is not stored. */
  function StoredTags(s: Store, id: int): set<string> {
    if id in s.tweets then s.tweets[id].hashtags else {}
  }

  /** The tags a payload's tweet holds once the payload is resolved against
      `s`, computed from `s` alone: the tags it already had, plus what
      `Accumulated` names, with each embedded status counted with the tags it
      will hold in turn. Exact when no status id repeats in the payload
      (`ResolveExactTags`). */
  function Gathered(s: Store, p: Payload, tag: string, batch: string): set<string>
    decreases p, 1
  {
    StoredTags(s, p.id)
    + Own(tag)
    + OptGathered(s, p.quoted, "", batch)
    + OptGathered(s, p.retweeted, batch, batch)
    + MentionTags(s.hashtags, Mentions(p))
  }

  function OptGathered(s: Store, o: Option<Payload>, tag: string, batch: string): set<string>
    decreases o, 0
  {
    if o.Some? then Gathered(s, o.value, tag, batch) else {}
  }

  /** No status id occurs twice in the payload. */
  predicate DistinctTree(p: Payload)
    decreases p, 1
  {
    && p.id !in NestedIds(p)
    && OptIds(p.quoted) !! OptIds(p.retweeted)
    && OptDistinctTree(p.quoted)
    && OptDistinctTree(p.retweeted)
  }

  predicate OptDistinctTree(o: Option<Payload>)
    decreases o, 0
  {
    o.None? || DistinctTree(o.value)
  }

  // ------------------------------------------------------- Resolver lemmas

  /** `b` is the row `a` with possibly more tags and nothing else changed. */
  predicate Retagged(a: Tweet, b: Tweet) {
    a.hashtags <= b.hashtags && b.(hashtags := a.hashtags) == a
  }

  /** What ingestion may do to a store: hashtags stay as they are, users and
      tweets are only added (a user row may be overwritten), and an existing
      tweet only gains tags. */
  predicate Extends(s: Store, t: Store) {
    && t.hashtags == s.hashtags
    && s.users.Keys <= t.users.Keys
    && s.tweets.Keys <= t.tweets.Keys
    && forall id :: id in s.tweets ==> Retagged(s.tweets[id], t.tweets[id])
  }

  lemma ExtendsTransitive(a: Store, b: Store, c: Store)
    requires Extends(a, b) && Extends(b, c)
    ensures Extends(a, c)
  {
    forall id | id in a.tweets
      ensures Retagged(a.tweets[id], c.tweets[id])
    {
      assert Retagged(a.tweets[id], b.tweets[id]);
      assert Retagged(b.tweets[id], c.tweets[id]);
    }
  }

  /** `t` is `s` after ingesting the statuses `ids` written by `authors`:
      `t` extends `s` by exactly those tweets and users, and every tweet
      outside `ids` and every user outside `authors` is as it was. */
  predicate Confined(s: Store, t: Store, ids: set<int>, authors: set<int>) {
    && Extends(s, t)
    && t.tweets.Keys == s.tweets.Keys + ids
    && t.users.Keys == s.users.Keys + authors
    && (forall id :: id in s.tweets && id !in ids ==> t.tweets[id] == s.tweets[id])
    && (forall u :: u in s.users && u !in authors ==> t.users[u] == s.users[u])
  }

  lemma ConfinedTransitive(a: Store, b: Store, c: Store, i1: set<int>, a1: set<int>, i2: set<int>, a2: set<int>)
    requires Confined(a, b, i1, a1) && Confined(b, c, i2, a2)
    ensures Confined(a, c, i1 + i2, a1 + a2)
  {
    ExtendsTransitive(a, b, c);
  }

  /** One `get_or_create` step extends the store and leaves the tweet with
      at least the tags it was given. */
  lemma AttachExtends(s: Store, p: Payload, tags: set<string>, quoted: Option<int>, retweeted: Option<int>)
    requires Attach(s, p, tags, quoted, retweeted).Success?
    ensures Confined(s, Attach(s, p, tags, quoted, retweeted).value.store, {p.id}, {p.user.id})
    ensures Attach(s, p, tags, quoted, retweeted).value.store.tweets[p.id].hashtags == StoredTags(s, p.id) + tags
  {
    var s1 := UpsertUser(s, p.user).value;
    assert forall u :: u in s.users && u != p.user.id ==> s1.users[u] == s.users[u];
  }

  /** Resolving a payload adds exactly its statuses and its authors, changes
      no other tweet or user, only adds tags to tweets that were stored, and
      creates the outer row exactly when its id was new and no embedded
      status carries it. */
  lemma {:induction false} ResolveGrows(s: Store, p: Payload, tag: string, batch: string)
    requires Resolve(s, p, tag, batch).Success?
    ensures Confined(s, Resolve(s, p, tag, batch).value.store, Ids(p), Authors(p))
    ensures Resolve(s, p, tag, batch).value.created <==> p.id !in s.tweets.Keys + NestedIds(p)
    decreases p, 1
  {
    var q := Follow(s, p.quoted, "", batch).value;
    FollowGrows(s, p.quoted, "", batch);
    var rt := Follow(q.store, p.retweeted, batch, batch).value;
    FollowGrows(q.store, p.retweeted, batch, batch);
    var tags := Own(tag) + q.tags + rt.tags + MentionTags(rt.store.hashtags, Mentions(p));
    AttachExtends(rt.store, p, tags, q.ref, rt.ref);
    var res := Attach(rt.store, p, tags, q.ref, rt.ref).value;
    ComposeSteps(s, q.store, rt.store, res.store, OptIds(p.quoted), OptAuthors(p.quoted),
      OptIds(p.retweeted), OptAuthors(p.retweeted), p.id, p.user.id, res.created);
  }

  /** The three steps of a resolution, the quoted status, the retweeted one
      and the outer row, compose to the whole payload. */
  lemma ComposeSteps(s: Store, q: Store, rt: Store, r: Store, iq: set<int>, aq: set<int>,
                     irt: set<int>, art: set<int>, id: int, author: int, created: bool)
    requires Confined(s, q, iq, aq) && Confined(q, rt, irt, art)
    requires Confined(rt, r, {id}, {author})
    requires created <==> id !in rt.tweets
    ensures Confined(s, r, {id} + iq + irt, {author} + aq + art)
    ensures created <==> id !in s.tweets.Keys + (iq + irt)
  {
    ConfinedTransitive(s, q, rt, iq, aq, irt, art);
    ConfinedTransitive(s, rt, r, iq + irt, aq + art, {id}, {author});
    assert iq + irt + {id} == {id} + iq + irt;
    assert aq + art + {author} == {author} + aq + art;
  }

  lemma {:induction false} FollowGrows(s: Store, o: Option<Payload>, tag: string, batch: string)
    requires Follow(s, o, tag, batch).Success?
    ensures Confined(s, Follow(s, o, tag, batch).value.store, OptIds(o), OptAuthors(o))
    decreases o, 0
  {
    if o.Some? {
      ResolveGrows(s, o.value, tag, batch);
    }
  }

  /** Adding stored hashtags to a stored tweet keeps the invariant. */
  lemma AddTagsPreservesValid(s: Store, id: int, tags: set<string>)
    requires Valid(s) && id in s.tweets && tags <= s.hashtags.Keys
    ensures Valid(AddTags(s, id, tags))
  {
    var s1 := AddTags(s, id, tags);
    forall i | i in s1.tweets
      ensures TweetValid(s1, s1.tweets[i])
    {
      assert TweetValid(s, s.tweets[i]);
    }
  }

  lemma AttachPreservesValid(s: Store, p: Payload, tags: set<string>, quoted: Option<int>, retweeted: Option<int>)
    requires Valid(s) && tags <= s.hashtags.Keys
    ensures Attach(s, p, tags, quoted, retweeted).Success? ==>
      Valid(Attach(s, p, tags, quoted, retweeted).value.store)
  {
    if Attach(s, p, tags, quoted, retweeted).Success? {
      var s1 := UpsertUser(s, p.user).value;
      UpsertUserPreservesValid(s, p.user);
      if p.id in s1.tweets {
        AddTagsPreservesValid(s1, p.id, tags);
      } else {
        SaveTweetPreservesValid(s1, p.id, NewTweet(p, quoted, retweeted));
        AddTagsPreservesValid(SaveTweet(s1, p.id, NewTweet(p, quoted, retweeted)).value, p.id, tags);
      }
    }
  }

  /** Resolving a payload keeps the database invariant: every tag it adds is
      a stored hashtag, and every row it creates passed validation. */
  lemma {:induction false} ResolvePreservesValid(s: Store, p: Payload, tag: string, batch: string)
    requires Valid(s)
    ensures Resolve(s, p, tag, batch).Success? ==> Valid(Resolve(s, p, tag, batch).value.store)
    decreases p, 1
  {
    if Resolve(s, p, tag, batch).Success? {
      var q := Follow(s, p.quoted, "", batch).value;
      FollowPreservesValid(s, p.quoted, "", batch);
      FollowGrows(s, p.quoted, "", batch);
      var rt := Follow(q.store, p.retweeted, batch, batch).value;
      FollowPreservesValid(q.store, p.retweeted, batch, batch);
      FollowGrows(q.store, p.retweeted, batch, batch);
      var tags := Own(tag) + q.tags + rt.tags + MentionTags(rt.store.hashtags, Mentions(p));
      FollowTagsStored(s, p.quoted, "", batch);
      FollowTagsStored(q.store, p.retweeted, batch, batch);
      AttachPreservesValid(rt.store, p, tags, q.ref, rt.ref);
    }
  }

  lemma {:induction false} FollowPreservesValid(s: Store, o: Option<Payload>, tag: string, batch: string)
    requires Valid(s)
    ensures Follow(s, o, tag, batch).Success? ==> Valid(Follow(s, o, tag, batch).value.store)
    decreases o, 0
  {
    if o.Some? {
      ResolvePreservesValid(s, o.value, tag, batch);
    }
  }

  /** The tags an embedded status passes up are stored hashtags. */
  lemma FollowTagsStored(s: Store, o: Option<Payload>, tag: string, batch: string)
    requires Follow(s, o, tag, batch).Success? && Valid(Follow(s, o, tag, batch).value.store)
    ensures Follow(s, o, tag, batch).value.tags <= Follow(s, o, tag, batch).value.store.hashtags.Keys
  {
    if o.Some? {
      var f := Follow(s, o, tag, batch).value;
      assert TweetValid(f.store, f.store.tweets[o.value.id]);
    }
  }

  /** The resolved tweet carries every tag the payload accumulates: its own,
      its embedded statuses', and the hashtags its mentions name. */
  lemma {:induction false} ResolveTags(s: Store, p: Payload, tag: string, batch: string)
    requires Resolve(s, p, tag, batch).Success?
    ensures Accumulated(s.hashtags, p, tag, batch) <= Resolve(s, p, tag, batch).value.store.tweets[p.id].hashtags
    decreases p, 1
  {
    var q := Follow(s, p.quoted, "", batch).value;
    FollowTags(s, p.quoted, "", batch);
    FollowGrows(s, p.quoted, "", batch);
    var rt := Follow(q.store, p.retweeted, batch, batch).value;
    FollowTags(q.store, p.retweeted, batch, batch);
    FollowGrows(q.store, p.retweeted, batch, batch);
    var tags := Own(tag) + q.tags + rt.tags + MentionTags(rt.store.hashtags, Mentions(p));
    AttachExtends(rt.store, p, tags, q.ref, rt.ref);
  }

  lemma {:induction false} FollowTags(s: Store, o: Option<Payload>, tag: string, batch: string)
    requires Follow(s, o, tag, batch).Success?
    ensures OptAccumulated(s.hashtags, o, tag, batch) <= Follow(s, o, tag, batch).value.tags
    decreases o, 0
  {
    if o.Some? {
      ResolveTags(s, o.value, tag, batch);
    }
  }

  /** `s` and `t` hold the same tags for every id in `ids`. */
  predicate SameTagsOn(s: Store, t: Store, ids: set<int>) {
    forall id :: id in ids ==> StoredTags(s, id) == StoredTags(t, id)
  }

  /** A confined step keeps the tags of every id it does not touch. */
  lemma ConfinedSameTags(s: Store, t: Store, ids: set<int>, authors: set<int>, other: set<int>)
    requires Confined(s, t, ids, authors) && other !! ids
    ensures SameTagsOn(s, t, other)
  {
  }

  /** `Gathered` reads the store only at the payload's own ids. */
  lemma {:induction false} GatheredFrame(s: Store, t: Store, p: Payload, tag: string, batch: string)
    requires s.hashtags == t.hashtags && SameTagsOn(s, t, Ids(p))
    ensures Gathered(s, p, tag, batch) == Gathered(t, p, tag, batch)
    decreases p, 1
  {
    OptGatheredFrame(s, t, p.quoted, "", batch);
    OptGatheredFrame(s, t, p.retweeted, batch, batch);
  }

  lemma {:induction false} OptGatheredFrame(s: Store, t: Store, o: Option<Payload>, tag: string, batch: string)
    requires s.hashtags == t.hashtags && SameTagsOn(s, t, OptIds(o))
    ensures OptGathered(s, o, tag, batch) == OptGathered(t, o, tag, batch)
    decreases o, 0
  {
    if o.Some? {
      GatheredFrame(s, t, o.value, tag, batch);
    }
  }

  /** When no status id repeats in the payload, the resolved tweet holds
      exactly the tags `Gathered` names: what it had, its fetched tag, its
      embedded statuses' resulting tags, and its mentions' hashtags, and
      nothing more. */
  lemma {:induction false} ResolveExactTags(s: Store, p: Payload, tag: string, batch: string)
    requires Resolve(s, p, tag, batch).Success? && DistinctTree(p)
    ensures Resolve(s, p, tag, batch).value.store.tweets[p.id].hashtags == Gathered(s, p, tag, batch)
    decreases p, 1
  {
    var q := Follow(s, p.quoted, "", batch).value;
    FollowGrows(s, p.quoted, "", batch);
    FollowExactTags(s, p.quoted, "", batch);
    var rt := Follow(q.store, p.retweeted, batch, batch).value;
    FollowGrows(q.store, p.retweeted, batch, batch);
    FollowExactTags(q.store, p.retweeted, batch, batch);
    var tags := Own(tag) + q.tags + rt.tags + MentionTags(rt.store.hashtags, Mentions(p));
    AttachExtends(rt.store, p, tags, q.ref, rt.ref);
    ExactStep(s, q, rt, Attach(rt.store, p, tags, q.ref, rt.ref).value.store, p, tag, batch);
  }

  /** The step of `ResolveExactTags` from the two embedded links to the
      outer row. */
  lemma ExactStep(s: Store, q: Link, rt: Link, r: Store, p: Payload, tag: string, batch: string)
    requires DistinctTree(p)
    requires Confined(s, q.store, OptIds(p.quoted), OptAuthors(p.quoted))
    requires Confined(q.store, rt.store, OptIds(p.retweeted), OptAuthors(p.retweeted))
    requires q.tags == OptGathered(s, p.quoted, "", batch)
    requires rt.tags == OptGathered(q.store, p.retweeted, batch, batch)
    requires p.id in r.tweets
    requires r.tweets[p.id].hashtags
          == StoredTags(rt.store, p.id) + (Own(tag) + q.tags + rt.tags + MentionTags(rt.store.hashtags, Mentions(p)))
    ensures r.tweets[p.id].hashtags == Gathered(s, p, tag, batch)
  {
    ConfinedSameTags(s, q.store, OptIds(p.quoted), OptAuthors(p.quoted), OptIds(p.retweeted) + {p.id});
    OptGatheredFrame(s, q.store, p.retweeted, batch, batch);
    ConfinedSameTags(q.store, rt.store, OptIds(p.retweeted), OptAuthors(p.retweeted), {p.id});
  }

  lemma {:induction false} FollowExactTags(s: Store, o: Option<Payload>, tag: string, batch: string)
    requires Follow(s, o, tag, batch).Success? && OptDistinctTree(o)
    ensures Follow(s, o, tag, batch).value.tags == OptGathered(s, o, tag, batch)
    decreases o, 0
  {
    if o.Some? {
      ResolveExactTags(s, o.value, tag, batch);
    }
  }

  /** When no embedded status is stored yet, what a payload gathers is the
      outer row's old tags plus what it accumulates. */
  lemma {:induction false} GatheredFresh(s: Store, p: Payload, tag: string, batch: string)
    requires NestedIds(p) !! s.tweets.Keys
    ensures Gathered(s, p, tag, batch) == StoredTags(s, p.id) + Accumulated(s.hashtags, p, tag, batch)
    decreases p, 1
  {
    OptGatheredFresh(s, p.quoted, "", batch);
    OptGatheredFresh(s, p.retweeted, batch, batch);
  }

  lemma {:induction false} OptGatheredFresh(s: Store, o: Option<Payload>, tag: string, batch: string)
    requires OptIds(o) !! s.tweets.Keys
    ensures OptGathered(s, o, tag, batch) == OptAccumulated(s.hashtags, o, tag, batch)
    decreases o, 0
  {
    if o.Some? {
      GatheredFresh(s, o.value, tag, batch);
    }
  }

  /** A payload with no repeated id and no stored embedded status leaves its
      outer tweet with its old tags (none if it is new) plus exactly what it
      accumulates. */
  lemma ResolveFreshTags(s: Store, p: Payload, tag: string, batch: string)
    requires Resolve(s, p, tag, batch).Success? && DistinctTree(p) && NestedIds(p) !! s.tweets.Keys
    ensures Resolve(s, p, tag, batch).value.store.tweets[p.id].hashtags
         == StoredTags(s, p.id) + Accumulated(s.hashtags, p, tag, batch)
  {
    ResolveExactTags(s, p, tag, batch);
    GatheredFresh(s, p, tag, batch);
  }

  /** Every embedded author of a payload passes validation. */
  predicate AuthorsValid(p: Payload)
    decreases p, 1
  {
    UserValid(UserOf(p.user)) && OptAuthorsValid(p.quoted) && OptAuthorsValid(p.retweeted)
  }

  predicate OptAuthorsValid(o: Option<Payload>)
    decreases o, 0
  {
    o.None? || AuthorsValid(o.value)
  }

  /** A resolution that succeeds has validated every author in the payload
      and found its fetched hashtag. */
  lemma {:induction false} ResolveValidatedAuthors(s: Store, p: Payload, tag: string, batch: string)
    requires Resolve(s, p, tag, batch).Success?
    ensures AuthorsValid(p)
    ensures tag != "" ==> tag in s.hashtags
    decreases p, 1
  {
    var q := Follow(s, p.quoted, "", batch).value;
    FollowValidatedAuthors(s, p.quoted, "", batch);
    var rt := Follow(q.store, p.retweeted, batch, batch).value;
    FollowValidatedAuthors(q.store, p.retweeted, batch, batch);
  }

  lemma {:induction false} FollowValidatedAuthors(s: Store, o: Option<Payload>, tag: string, batch: string)
    requires Follow(s, o, tag, batch).Success?
    ensures OptAuthorsValid(o)
    decreases o, 0
  {
    if o.Some? {
      ResolveValidatedAuthors(s, o.value, tag, batch);
    }
  }

  /** A payload whose statuses are all stored already, whose authors are
      valid and whose hashtags exist resolves without creating anything. */
  lemma {:induction false} ResolveStoredPayload(s: Store, p: Payload, tag: string, batch: string)
    requires Ids(p) <= s.tweets.Keys && AuthorsValid(p)
    requires tag != "" ==> tag in s.hashtags
    requires batch != "" ==> batch in s.hashtags
    ensures Resolve(s, p, tag, batch).Success?
    ensures !Resolve(s, p, tag, batch).value.created
    decreases p, 1
  {
    FollowStoredPayload(s, p.quoted, "", batch);
    FollowGrows(s, p.quoted, "", batch);
    var q := Follow(s, p.quoted, "", batch).value;
    FollowStoredPayload(q.store, p.retweeted, batch, batch);
    FollowGrows(q.store, p.retweeted, batch, batch);
  }

  lemma {:induction false} FollowStoredPayload(s: Store, o: Option<Payload>, tag: string, batch: string)
    requires OptIds(o) <= s.tweets.Keys && OptAuthorsValid(o)
    requires tag != "" ==> tag in s.hashtags
    requires batch != "" ==> batch in s.hashtags
    ensures Follow(s, o, tag, batch).Success?
    decreases o, 0
  {
    if o.Some? {
      ResolveStoredPayload(s, o.value, tag, batch);
    }
  }

  // ------------------------------------------------------------------ Batch

  /** The result of a batch: the store it commits and the ids of the outer
      tweets it created, in input order. */
  datatype Batch = Batch(store: Store, created: seq<int>)

  /** `TweetQueries.create_from_json(hashtag_name, *payloads)`: resolves the
      payloads in order, each under the batch hashtag, and lists the outer
      tweets `get_or_create` created. The loop runs in `transaction.atomic()`,
      so a failure anywhere commits nothing: the caller keeps its store. An
      empty batch never looks the hashtag up. */
  function CreateFromJson(s: Store, h: string, ps: seq<Payload>): (r: Result<Batch, IngestError>)
    ensures |ps| > 0 && h != "" && h !in s.hashtags ==> r == Failure(UnknownHashtag(h))
    ensures ps == [] ==> r == Success(Batch(s, []))
    decreases |ps|
  {
    if ps == [] then
      Success(Batch(s, []))
    else
      match Resolve(s, ps[0], h, h)
      case Failure(e) => Failure(e)
      case Success(res) =>
        match CreateFromJson(res.store, h, ps[1..])
        case Failure(e) => Failure(e)
        case Success(b) => Success(Batch(b.store, (if res.created then [res.id] else []) + b.created))
  }

  /** The ids of the outer statuses of a batch. */
  function OuterIds(ps: seq<Payload>): set<int> {
    set i | 0 <= i < |ps| :: ps[i].id
  }

  /** Every status id in a batch. */
  function BatchIds(ps: seq<Payload>): set<int>
    decreases |ps|
  {
    if ps == [] then {} else Ids(ps[0]) + BatchIds(ps[1..])
  }

  /** Every author id in a batch. */
  function BatchAuthors(ps: seq<Payload>): set<int>
    decreases |ps|
  {
    if ps == [] then {} else Authors(ps[0]) + BatchAuthors(ps[1..])
  }

  /** The ids of the embedded statuses of a batch. */
  function BatchNestedIds(ps: seq<Payload>): set<int>
    decreases |ps|
  {
    if ps == [] then {} else NestedIds(ps[0]) + BatchNestedIds(ps[1..])
  }

  lemma OuterIdsTail(ps: seq<Payload>)
    requires ps != []
    ensures OuterIds(ps) == {ps[0].id} + OuterIds(ps[1..])
  {
    forall x | x in OuterIds(ps)
      ensures x in {ps[0].id} + OuterIds(ps[1..])
    {
      var i :| 0 <= i < |ps| && ps[i].id == x;
      if i > 0 {
        assert ps[1..][i - 1].id == x;
      }
    }
    forall x | x in OuterIds(ps[1..])
      ensures x in OuterIds(ps)
    {
      var i :| 0 <= i < |ps[1..]| && ps[1..][i].id == x;
      assert ps[i + 1].id == x;
    }
  }

  lemma {:induction false} OuterIdsStored(ps: seq<Payload>)
    ensures OuterIds(ps) <= BatchIds(ps)
    decreases |ps|
  {
    if ps != [] {
      OuterIdsTail(ps);
      OuterIdsStored(ps[1..]);
    } else {
      assert OuterIds(ps) == {};
    }
  }

  /** A committed batch extends the store, stores every status and author of
      the batch and no other, leaves every other tweet and user as it was,
      and lists only outer tweets whose ids were new, each once. */
  lemma {:induction false} BatchGrows(s: Store, h: string, ps: seq<Payload>)
    requires CreateFromJson(s, h, ps).Success?
    ensures Confined(s, CreateFromJson(s, h, ps).value.store, BatchIds(ps), BatchAuthors(ps))
    ensures BatchIds(ps) <= CreateFromJson(s, h, ps).value.store.tweets.Keys <= s.tweets.Keys + BatchIds(ps)
    ensures forall i :: 0 <= i < |CreateFromJson(s, h, ps).value.created| ==>
      && CreateFromJson(s, h, ps).value.created[i] !in s.tweets
      && CreateFromJson(s, h, ps).value.created[i] in OuterIds(ps)
    ensures Folds.Distinct(CreateFromJson(s, h, ps).value.created)
    decreases |ps|
  {
    if ps != [] {
      var res := Resolve(s, ps[0], h, h).value;
      ResolveGrows(s, ps[0], h, h);
      var b := CreateFromJson(res.store, h, ps[1..]).value;
      BatchGrows(res.store, h, ps[1..]);
      ConfinedTransitive(s, res.store, b.store, Ids(ps[0]), Authors(ps[0]), BatchIds(ps[1..]), BatchAuthors(ps[1..]));
      OuterIdsTail(ps);
      CreatedList(s, res, b);
    }
  }

  /** `c` picks outer ids of `ps` in the order their payloads come, each
      from a later payload than the one before. */
  predicate InInputOrder(c: seq<int>, ps: seq<Payload>)
    decreases |ps|
  {
    || c == []
    || (ps != [] && (
         || (c[0] == ps[0].id && InInputOrder(c[1..], ps[1..]))
         || InInputOrder(c, ps[1..])))
  }

  /** The created list follows the input order of the payloads. */
  lemma {:induction false} BatchInInputOrder(s: Store, h: string, ps: seq<Payload>)
    requires CreateFromJson(s, h, ps).Success?
    ensures InInputOrder(CreateFromJson(s, h, ps).value.created, ps)
    decreases |ps|
  {
    if ps != [] {
      var res := Resolve(s, ps[0], h, h).value;
      var b := CreateFromJson(res.store, h, ps[1..]).value;
      BatchInInputOrder(res.store, h, ps[1..]);
      var c := CreateFromJson(s, h, ps).value.created;
      if res.created {
        assert c[0] == ps[0].id && c[1..] == b.created;
      } else {
        assert c == b.created;
      }
    }
  }

  /** The step of `BatchGrows` that prepends the first payload's id. */
  lemma CreatedList(s: Store, res: Resolved, b: Batch)
    requires s.tweets.Keys <= res.store.tweets.Keys && res.id in res.store.tweets
    requires res.created ==> res.id !in s.tweets
    requires forall i :: 0 <= i < |b.created| ==> b.created[i] !in res.store.tweets
    requires Folds.Distinct(b.created)
    ensures var c := (if res.created then [res.id] else []) + b.created;
      && Folds.Distinct(c)
      && forall i :: 0 <= i < |c| ==> c[i] !in s.tweets && (c[i] == res.id || c[i] in b.created)
  {
  }

  /** A committed batch keeps the database invariant. */
  lemma {:induction false} BatchPreservesValid(s: Store, h: string, ps: seq<Payload>)
    requires Valid(s)
    ensures CreateFromJson(s, h, ps).Success? ==> Valid(CreateFromJson(s, h, ps).value.store)
    decreases |ps|
  {
    if ps != [] && CreateFromJson(s, h, ps).Success? {
      ResolvePreservesValid(s, ps[0], h, h);
      BatchPreservesValid(Resolve(s, ps[0], h, h).value.store, h, ps[1..]);
    }
  }

  /** Every outer tweet whose id was new, and is not also embedded somewhere
      in the batch, is listed as created. */
  lemma {:induction false} BatchListsFresh(s: Store, h: string, ps: seq<Payload>, j: int)
    requires CreateFromJson(s, h, ps).Success?
    requires 0 <= j < |ps| && ps[j].id !in s.tweets && ps[j].id !in BatchNestedIds(ps)
    ensures ps[j].id in CreateFromJson(s, h, ps).value.created
    decreases |ps|
  {
    var res := Resolve(s, ps[0], h, h).value;
    ResolveGrows(s, ps[0], h, h);
    if ps[j].id != ps[0].id {
      assert ps[1..][j - 1] == ps[j];
      BatchListsFresh(res.store, h, ps[1..], j - 1);
    }
  }

  /** Every author a committed batch mentions was valid, and a non-empty
      batch found its hashtag. */
  lemma {:induction false} BatchValidatedAuthors(s: Store, h: string, ps: seq<Payload>)
    requires CreateFromJson(s, h, ps).Success?
    ensures forall i :: 0 <= i < |ps| ==> AuthorsValid(ps[i])
    ensures ps != [] && h != "" ==> h in s.hashtags
    decreases |ps|
  {
    if ps != [] {
      ResolveValidatedAuthors(s, ps[0], h, h);
      BatchValidatedAuthors(Resolve(s, ps[0], h, h).value.store, h, ps[1..]);
      forall i | 0 < i < |ps|
        ensures AuthorsValid(ps[i])
      {
        assert ps[i] == ps[1..][i - 1];
      }
    }
  }

  /** A batch whose statuses are all stored commits and creates nothing. */
  lemma {:induction false} BatchOfStored(s: Store, h: string, ps: seq<Payload>)
    requires BatchIds(ps) <= s.tweets.Keys
    requires forall i :: 0 <= i < |ps| ==> AuthorsValid(ps[i])
    requires ps != [] && h != "" ==> h in s.hashtags
    ensures CreateFromJson(s, h, ps).Success?
    ensures CreateFromJson(s, h, ps).value.created == []
    decreases |ps|
  {
    if ps != [] {
      ResolveStoredPayload(s, ps[0], h, h);
      ResolveGrows(s, ps[0], h, h);
      forall i | 0 <= i < |ps[1..]|
        ensures AuthorsValid(ps[1..][i])
      {
        assert ps[1..][i] == ps[i + 1];
      }
      BatchOfStored(Resolve(s, ps[0], h, h).value.store, h, ps[1..]);
    }
  }

  /** Repeating a committed batch commits again, creates nothing, and adds
      no row. */
  lemma BatchRepeat(s: Store, h: string, ps: seq<Payload>)
    requires CreateFromJson(s, h, ps).Success?
    ensures var s1 := CreateFromJson(s, h, ps).value.store;
      && CreateFromJson(s1, h, ps).Success?
      && CreateFromJson(s1, h, ps).value.created == []
      && CreateFromJson(s1, h, ps).value.store.tweets.Keys == s1.tweets.Keys
  {
    var s1 := CreateFromJson(s, h, ps).value.store;
    BatchGrows(s, h, ps);
    BatchValidatedAuthors(s, h, ps);
    BatchOfStored(s1, h, ps);
    BatchGrows(s1, h, ps);
  }

  /** After a committed batch, every outer tweet carries the batch hashtag
      and everything its payload accumulates, whether it was created or
      already stored. */
  lemma {:induction false} BatchTags(s: Store, h: string, ps: seq<Payload>, j: int)
    requires CreateFromJson(s, h, ps).Success? && 0 <= j < |ps|
    ensures ps[j].id in CreateFromJson(s, h, ps).value.store.tweets
    ensures Accumulated(s.hashtags, ps[j], h, h) <= CreateFromJson(s, h, ps).value.store.tweets[ps[j].id].hashtags
    ensures h != "" ==> h in CreateFromJson(s, h, ps).value.store.tweets[ps[j].id].hashtags
    decreases |ps|
  {
    var res := Resolve(s, ps[0], h, h).value;
    ResolveGrows(s, ps[0], h, h);
    var b := CreateFromJson(res.store, h, ps[1..]).value;
    BatchGrows(res.store, h, ps[1..]);
    if j == 0 {
      ResolveTags(s, ps[0], h, h);
      assert Retagged(res.store.tweets[ps[0].id], b.store.tweets[ps[0].id]);
    } else {
      assert ps[1..][j - 1] == ps[j];
      BatchTags(res.store, h, ps[1..], j - 1);
    }
  }

  /** No status id occurs twice anywhere in the batch. */
  predicate BatchDistinct(ps: seq<Payload>)
    decreases |ps|
  {
    ps == [] || (DistinctTree(ps[0]) && Ids(ps[0]) !! BatchIds(ps[1..]) && BatchDistinct(ps[1..]))
  }

  lemma {:induction false} IdsInBatch(ps: seq<Payload>, j: int)
    requires 0 <= j < |ps|
    ensures Ids(ps[j]) <= BatchIds(ps)
    decreases |ps|
  {
    if j > 0 {
      assert ps[1..][j - 1] == ps[j];
      IdsInBatch(ps[1..], j - 1);
    }
  }

  /** In a batch where no status id repeats, every outer tweet ends up with
      exactly the tags its payload gathers against the starting store. */
  lemma {:induction false} BatchExactTags(s: Store, h: string, ps: seq<Payload>, j: int)
    requires CreateFromJson(s, h, ps).Success? && BatchDistinct(ps) && 0 <= j < |ps|
    ensures ps[j].id in CreateFromJson(s, h, ps).value.store.tweets
    ensures CreateFromJson(s, h, ps).value.store.tweets[ps[j].id].hashtags == Gathered(s, ps[j], h, h)
    decreases |ps|
  {
    var res := Resolve(s, ps[0], h, h).value;
    ResolveGrows(s, ps[0], h, h);
    var b := CreateFromJson(res.store, h, ps[1..]).value;
    BatchGrows(res.store, h, ps[1..]);
    if j == 0 {
      ResolveExactTags(s, ps[0], h, h);
      ConfinedSameTags(res.store, b.store, BatchIds(ps[1..]), BatchAuthors(ps[1..]), {ps[0].id});
    } else {
      assert ps[1..][j - 1] == ps[j];
      BatchExactTags(res.store, h, ps[1..], j - 1);
      IdsInBatch(ps[1..], j - 1);
      ConfinedSameTags(s, res.store, Ids(ps[0]), Authors(ps[0]), Ids(ps[j]));
      GatheredFrame(s, res.store, ps[j], h, h);
    }
  }

  /** A batch of new statuses, none repeated, leaves every outer tweet with
      exactly the tags its payload accumulates. */
  lemma BatchFreshTags(s: Store, h: string, ps: seq<Payload>, j: int)
    requires CreateFromJson(s, h, ps).Success? && BatchDistinct(ps) && 0 <= j < |ps|
    requires BatchIds(ps) !! s.tweets.Keys
    ensures ps[j].id in CreateFromJson(s, h, ps).value.store.tweets
    ensures CreateFromJson(s, h, ps).value.store.tweets[ps[j].id].hashtags == Accumulated(s.hashtags, ps[j], h, h)
  {
    BatchExactTags(s, h, ps, j);
    IdsInBatch(ps, j);
    GatheredFresh(s, ps[j], h, h);
  }

  /** The outer ids a batch creates, computed from the stored ids alone: a
      payload's outer row is created when its id is neither stored, nor
      stored by an earlier payload, nor one of its own embedded statuses. */
  function NewOuterIds(keys: set<int>, ps: seq<Payload>): seq<int>
    decreases |ps|
  {
    if ps == [] then
      []
    else
      var head := if ps[0].id !in keys + NestedIds(ps[0]) then [ps[0].id] else [];
      head + NewOuterIds(keys + Ids(ps[0]), ps[1..])
  }

  /** The created list is exactly `NewOuterIds` of the stored ids. */
  lemma {:induction false} BatchCreatedExactly(s: Store, h: string, ps: seq<Payload>)
    requires CreateFromJson(s, h, ps).Success?
    ensures CreateFromJson(s, h, ps).value.created == NewOuterIds(s.tweets.Keys, ps)
    decreases |ps|
  {
    if ps != [] {
      var res := Resolve(s, ps[0], h, h).value;
      ResolveGrows(s, ps[0], h, h);
      BatchCreatedExactly(res.store, h, ps[1..]);
    }
  }

  lemma BatchIdsPrefix(ps: seq<Payload>, k: int)
    requires 0 < k <= |ps|
    ensures BatchIds(ps[..k]) == Ids(ps[0]) + BatchIds(ps[1..][..k - 1])
  {
    assert ps[..k][0] == ps[0];
    assert ps[..k][1..] == ps[1..][..k - 1];
  }

  /** `x` is in `NewOuterIds` exactly when some payload has outer id `x`
      that is neither stored, nor among the ids of the payloads before it,
      nor among its own embedded ids. */
  lemma {:induction false} NewOuterIdsMembers(keys: set<int>, ps: seq<Payload>, x: int)
    ensures x in NewOuterIds(keys, ps) <==>
      exists k :: 0 <= k < |ps| && ps[k].id == x && x !in keys + BatchIds(ps[..k]) + NestedIds(ps[k])
    decreases |ps|
  {
    if ps != [] {
      var keys' := keys + Ids(ps[0]);
      NewOuterIdsMembers(keys', ps[1..], x);
      if x in NewOuterIds(keys, ps) {
        if x !in NewOuterIds(keys', ps[1..]) {
          assert ps[..0] == [];
          assert ps[0].id == x && x !in keys + BatchIds(ps[..0]) + NestedIds(ps[0]);
        } else {
          var k' :| 0 <= k' < |ps[1..]| && ps[1..][k'].id == x
            && x !in keys' + BatchIds(ps[1..][..k']) + NestedIds(ps[1..][k']);
          BatchIdsPrefix(ps, k' + 1);
          assert ps[k' + 1] == ps[1..][k'];
        }
      }
      if exists k :: 0 <= k < |ps| && ps[k].id == x && x !in keys + BatchIds(ps[..k]) + NestedIds(ps[k]) {
        var k :| 0 <= k < |ps| && ps[k].id == x && x !in keys + BatchIds(ps[..k]) + NestedIds(ps[k]);
        if k > 0 {
          BatchIdsPrefix(ps, k);
          assert ps[1..][k - 1] == ps[k];
          assert x in NewOuterIds(keys', ps[1..]);
        } else {
          assert ps[..0] == [];
        }
      }
    }
  }

  /** The created list names exactly the payloads whose outer id was new
      when its turn came and is not embedded in the payload itself. */
  lemma BatchListsExactly(s: Store, h: string, ps: seq<Payload>, x: int)
    requires CreateFromJson(s, h, ps).Success?
    ensures x in CreateFromJson(s, h, ps).value.created <==>
      exists k :: 0 <= k < |ps| && ps[k].id == x && x !in s.tweets.Keys + BatchIds(ps[..k]) + NestedIds(ps[k])
  {
    BatchCreatedExactly(s, h, ps);
    NewOuterIdsMembers(s.tweets.Keys, ps, x);
  }
}

/** The normalised store of hashtag_monitor/apps/monitor/models.py: the
    Hashtag, User and Tweet entities, their field validators, the colour
    default, the retweet-count reset of `Tweet.save`, and the id bounds used
    to page the search API. */
module Models {
  import opened Results
  import opened Text
  import Folds

  /** `validate_nb_hashtag`: creation fails when the store holds exactly this many. */
  const MaxHashtags := 400
  const MaxHashtagLength := 500
  const MaxUserNameLength := 100
  const MaxLangLength := 3
  const MaxSourceLength := 500
  const MaxUrlLength := 100
  const MaxFilterLevelLength := 50
  /** Language code of a tweet whose language Twitter could not determine. */
  const Undetermined := "und"

  /** `COLORS_PALETTE`: the colours a hashtag may carry. */
  const Palette: seq<string> := [
    "#3b465e", "#2e3951", "#1c2a48", "#1c2331", "#e53935", "#d32f2f", "#c62828", "#b71c1c",
    "#d81b60", "#c2185b", "#ad1457", "#880e4f", "#8e24aa", "#7b1fa2", "#6a1b9a", "#4a148c",
    "#5e35b1", "#512da8", "#4527a0", "#311b92", "#3949ab", "#303f9f", "#283593", "#1a237e",
    "#1e88e5", "#1976d2", "#1565c0", "#0d47a1", "#039be5", "#0288d1", "#0277bd", "#01579b",
    "#00acc1", "#0097a7", "#00838f", "#006064", "#00897b", "#00796b", "#00695c", "#004d40",
    "#43a047", "#388e3c", "#2e7d32", "#1b5e20", "#7cb342", "#689f38", "#558b2f", "#33691e",
    "#c0ca33", "#afb42b", "#9e9d24", "#827717", "#fdd835", "#fbc02d", "#f9a825", "#f57f17",
    "#ffb300", "#ffa000", "#ff8f00", "#ff6f00", "#fb8c00", "#f57c00", "#ef6c00", "#e65100",
    "#f4511e", "#e64a19", "#d84315", "#bf360c", "#6d4c41", "#5d4037", "#4e342e", "#3e2723",
    "#546e7a", "#455a64", "#37474f", "#263238", "#757575", "#616161", "#424242", "#212121"
  ]

  const SecondsPerDay := 86400

  /** The calendar day of a timestamp in seconds: what a `DateField` keeps
      of a datetime, and what `created_at__date` extracts. */
  function Day(ts: int): int {
    ts / SecondsPerDay
  }

  datatype User = User(
    name: string,
    screenName: string,
    createdAt: int,           // day number (a DateField)
    friendsCount: int,
    followersCount: int,
    profileImage: Option<string>)

  /** A stored tweet. `createdAt` is a timestamp in seconds; `hashtags` is the
      tweet's side of the many-to-many relation with Hashtag. */
  datatype Tweet = Tweet(
    author: int,
    quoted: Option<int>,
    retweeted: Option<int>,
    hashtags: set<string>,
    createdAt: int,
    text: string,
    lang: string,
    retweetCount: int,
    source: Option<string>,
    url: Option<string>,
    filterLevel: Option<string>)

  /** The database: hashtag name to colour, user id to user, tweet id to tweet. */
  datatype Store = Store(
    hashtags: map<string, string>,
    users: map<int, User>,
    tweets: map<int, Tweet>)

  const EmptyStore := Store(map[], map[], map[])

  // ---------------------------------------------------------------- Hashtag

  datatype HashtagError =
    | BlankName          // Django's blank=False check; skips the validators
    | NotAHashtag        // validate_is_hashtag
    | MissingText        // validate_hashtag_not_empty
    | NameTooLong        // max_length=500
    | DuplicateName      // validate_is_not_duplicate
    | TooManyHashtags    // validate_nb_hashtag
    | ColorNotInPalette  // choices=COLORS_PALETTE

  /** Syntactically a hashtag: `#` followed by 1 to 499 characters. */
  predicate WellFormedName(name: string) {
    2 <= |name| <= MaxHashtagLength && name[0] == '#'
  }

  /** Some stored hashtag has this name up to case (`name__iexact`). */
  predicate HasCaseInsensitiveMatch(hashtags: map<string, string>, name: string) {
    exists k :: k in hashtags && SameIgnoringCase(k, name)
  }

  /** Errors `full_clean` reports on the name field. All failing validators
      are reported together; a blank name reports only that it is blank. */
  function NameErrors(hashtags: map<string, string>, name: string): (errs: set<HashtagError>)
    ensures errs == {} <==>
      WellFormedName(name) && !HasCaseInsensitiveMatch(hashtags, name) && |hashtags| != MaxHashtags
    ensures name == "" ==> errs == {BlankName}
  {
    if name == "" then {BlankName}
    else
      (if name[0] != '#' then {NotAHashtag} else {})
      + (if |name| < 2 then {MissingText} else {})
      + (if |name| > MaxHashtagLength then {NameTooLong} else {})
      + (if HasCaseInsensitiveMatch(hashtags, name) then {DuplicateName} else {})
      + (if |hashtags| == MaxHashtags then {TooManyHashtags} else {})
  }

  /** A colour counts as not supplied when it is missing or empty (`if not self.color`). */
  predicate ColorAbsent(color: Option<string>) {
    color.None? || color.value == ""
  }

  /** The random palette pick; `draw` stands for the random number generator. */
  function PickColor(draw: nat): (c: string)
    ensures c in Palette
  {
    Palette[draw % |Palette|]
  }

  /** The colour `Hashtag.__init__` leaves on a new instance. */
  function InitialColor(color: Option<string>, draw: nat): (c: string)
    ensures ColorAbsent(color) ==> c in Palette
    ensures !ColorAbsent(color) ==> c == color.value
  {
    if ColorAbsent(color) then PickColor(draw) else color.value
  }

  /** `Hashtag.objects.create(name=name, color=color)`: build the instance,
      run `full_clean`, insert. */
  function CreateHashtag(s: Store, name: string, color: Option<string>, draw: nat): (r: Result<Store, set<HashtagError>>)
    ensures r.Success? <==>
      && WellFormedName(name)
      && !HasCaseInsensitiveMatch(s.hashtags, name)
      && |s.hashtags| != MaxHashtags
      && (ColorAbsent(color) || color.value in Palette)
    ensures r.Failure? ==> r.error != {}
    ensures r.Success? ==>
      && name !in s.hashtags
      && name in r.value.hashtags
      && r.value == s.(hashtags := s.hashtags[name := r.value.hashtags[name]])
      && r.value.hashtags[name] in Palette
    ensures r.Success? && !ColorAbsent(color) ==> r.value.hashtags[name] == color.value
  {
    var c := InitialColor(color, draw);
    var errs := NameErrors(s.hashtags, name) + (if c in Palette then {} else {ColorNotInPalette});
    if errs != {} then
      Failure(errs)
    else
      assert name !in s.hashtags by {
        if name in s.hashtags {
          assert SameIgnoringCase(name, name);
        }
      }
      Success(s.(hashtags := s.hashtags[name := c]))
  }

  /** Every palette colour can come out of the random pick: draw `i` yields
      the `i`-th colour. */
  lemma PickColorCoversPalette(i: nat)
    requires i < |Palette|
    ensures PickColor(i) == Palette[i]
  {
    assert |Palette| == 80;
    assert i % 80 == i;
  }

  // ------------------------------------------------------------------- User

  datatype UserError = BlankUserName | UserNameTooLong | BlankScreenName | ScreenNameTooLong

  predicate UserValid(u: User) {
    && u.name != "" && |u.name| <= MaxUserNameLength
    && u.screenName != "" && |u.screenName| <= MaxUserNameLength
  }

  /** Errors `User.full_clean` reports. */
  function UserErrors(u: User): (errs: set<UserError>)
    ensures errs == {} <==> UserValid(u)
  {
    (if u.name == "" then {BlankUserName} else {})
    + (if |u.name| > MaxUserNameLength then {UserNameTooLong} else {})
    + (if u.screenName == "" then {BlankScreenName} else {})
    + (if |u.screenName| > MaxUserNameLength then {ScreenNameTooLong} else {})
  }

  // ------------------------------------------------------------------ Tweet

  datatype TweetError =
    | BlankText | BlankLang | LangTooLong | SourceTooLong | UrlTooLong | FilterLevelTooLong
    | UnknownAuthor | UnknownQuotedTweet | UnknownRetweeted | DuplicateTweetId

  predicate AtMost(field: Option<string>, n: nat) {
    field.None? || |field.value| <= n
  }

  /** The column constraints of Tweet (blank=False text and lang, max_length on the rest). */
  predicate FieldsWithinBounds(t: Tweet) {
    && t.text != ""
    && t.lang != "" && |t.lang| <= MaxLangLength
    && AtMost(t.source, MaxSourceLength)
    && AtMost(t.url, MaxUrlLength)
    && AtMost(t.filterLevel, MaxFilterLevelLength)
  }

  /** Every foreign key of `t` names a stored row. */
  predicate RefsResolve(s: Store, t: Tweet) {
    && t.author in s.users
    && (t.quoted.Some? ==> t.quoted.value in s.tweets)
    && (t.retweeted.Some? ==> t.retweeted.value in s.tweets)
  }

  /** The first step of `Tweet.save`: a retweet never carries its own retweet count. */
  function WithRetweetReset(t: Tweet): (r: Tweet)
    ensures r.retweeted.Some? ==> r.retweetCount == 0
    ensures t.retweeted.None? ==> r == t
    ensures r.(retweetCount := t.retweetCount) == t
  {
    if t.retweeted.Some? then t.(retweetCount := 0) else t
  }

  /** Errors `Tweet.full_clean` reports when inserting `t` under `id`. */
  function TweetErrors(s: Store, id: int, t: Tweet): (errs: set<TweetError>)
    ensures errs == {} <==> FieldsWithinBounds(t) && RefsResolve(s, t) && id !in s.tweets
  {
    (if t.text == "" then {BlankText} else {})
    + (if t.lang == "" then {BlankLang} else {})
    + (if |t.lang| > MaxLangLength then {LangTooLong} else {})
    + (if !AtMost(t.source, MaxSourceLength) then {SourceTooLong} else {})
    + (if !AtMost(t.url, MaxUrlLength) then {UrlTooLong} else {})
    + (if !AtMost(t.filterLevel, MaxFilterLevelLength) then {FilterLevelTooLong} else {})
    + (if t.author !in s.users then {UnknownAuthor} else {})
    + (if t.quoted.Some? && t.quoted.value !in s.tweets then {UnknownQuotedTweet} else {})
    + (if t.retweeted.Some? && t.retweeted.value !in s.tweets then {UnknownRetweeted} else {})
    + (if id in s.tweets then {DuplicateTweetId} else {})
  }

  /** `Tweet.objects.create(id=id, ...)`: `save` resets the retweet count of a
      retweet, validates, and inserts the row. The many-to-many hashtag set of
      a fresh row is empty; tags are added afterwards. */
  function SaveTweet(s: Store, id: int, t: Tweet): (r: Result<Store, set<TweetError>>)
    ensures r.Success? <==> FieldsWithinBounds(t) && RefsResolve(s, t) && id !in s.tweets
    ensures r.Failure? ==> r.error != {}
    ensures r.Success? ==>
      && id in r.value.tweets
      && r.value == s.(tweets := s.tweets[id := r.value.tweets[id]])
      && r.value.tweets[id].hashtags == {}
      && r.value.tweets[id].(retweetCount := t.retweetCount, hashtags := t.hashtags) == t
      && (t.retweeted.Some? ==> r.value.tweets[id].retweetCount == 0)
      && (t.retweeted.None? ==> r.value.tweets[id].retweetCount == t.retweetCount)
  {
    var u := WithRetweetReset(t).(hashtags := {});
    var errs := TweetErrors(s, id, u);
    if errs != {} then Failure(errs) else Success(s.(tweets := s.tweets[id := u]))
  }

  // -------------------------------------------------------------- Invariant

  /** Hashtag rows as validation leaves them: well-formed names, palette
      colours, no two names equal up to case, at most 400 rows. */
  predicate HashtagsValid(h: map<string, string>) {
    && |h| <= MaxHashtags
    && (forall n :: n in h ==> WellFormedName(n) && h[n] in Palette)
    && (forall a, b :: a in h && b in h && Lower(a) == Lower(b) ==> a == b)
  }

  predicate UsersValid(users: map<int, User>) {
    forall u :: u in users ==> UserValid(users[u])
  }

  /** A stored tweet: within bounds, keys resolve, tags are stored hashtags,
      and a retweet's count is 0. */
  predicate TweetValid(s: Store, t: Tweet) {
    && FieldsWithinBounds(t)
    && RefsResolve(s, t)
    && t.hashtags <= s.hashtags.Keys
    && (t.retweeted.Some? ==> t.retweetCount == 0)
  }

  predicate TweetsValid(s: Store) {
    forall id :: id in s.tweets ==> TweetValid(s, s.tweets[id])
  }

  /** The database invariant every operation of the model maintains. */
  predicate Valid(s: Store) {
    HashtagsValid(s.hashtags) && UsersValid(s.users) && TweetsValid(s)
  }

  lemma EmptyStoreValid()
    ensures Valid(EmptyStore)
  {
  }

  /** Hashtag creation keeps the invariant; in particular the store never
      holds more than 400 hashtags and names stay unique up to case. */
  lemma CreateHashtagPreservesValid(s: Store, name: string, color: Option<string>, draw: nat)
    requires Valid(s)
    requires CreateHashtag(s, name, color, draw).Success?
    ensures Valid(CreateHashtag(s, name, color, draw).value)
    ensures |CreateHashtag(s, name, color, draw).value.hashtags| == |s.hashtags| + 1
  {
    var c := CreateHashtag(s, name, color, draw).value.hashtags[name];
    AddHashtagPreservesValid(s, name, c);
  }

  /** Adding an unmatched, well-formed name with a palette colour to a store
      below capacity keeps the invariant and grows the hashtags by one. */
  lemma AddHashtagPreservesValid(s: Store, name: string, c: string)
    requires Valid(s) && c in Palette
    requires WellFormedName(name) && !HasCaseInsensitiveMatch(s.hashtags, name) && |s.hashtags| < MaxHashtags
    ensures Valid(s.(hashtags := s.hashtags[name := c]))
    ensures |s.hashtags[name := c]| == |s.hashtags| + 1
  {
    var s' := s.(hashtags := s.hashtags[name := c]);
    assert name !in s.hashtags by {
      if name in s.hashtags {
        assert SameIgnoringCase(name, name);
      }
    }
    NewNameKeepsNamesDistinct(s.hashtags, name, c);
    forall id | id in s'.tweets
      ensures TweetValid(s', s'.tweets[id])
    {
      assert TweetValid(s, s.tweets[id]);
    }
  }

  /** A name with no case-insensitive match keeps names distinct up to case. */
  lemma NewNameKeepsNamesDistinct(h: map<string, string>, name: string, c: string)
    requires forall a, b :: a in h && b in h && Lower(a) == Lower(b) ==> a == b
    requires !HasCaseInsensitiveMatch(h, name)
    ensures forall a, b :: a in h[name := c] && b in h[name := c] && Lower(a) == Lower(b) ==> a == b
  {
    assert forall k :: k in h ==> !SameIgnoringCase(k, name);
  }

  /** Saving a tweet whose tags are empty keeps the invariant. */
  lemma SaveTweetPreservesValid(s: Store, id: int, t: Tweet)
    requires Valid(s)
    requires SaveTweet(s, id, t).Success?
    ensures Valid(SaveTweet(s, id, t).value)
  {
    var s' := SaveTweet(s, id, t).value;
    forall i | i in s'.tweets
      ensures TweetValid(s', s'.tweets[i])
    {
      if i != id {
        assert TweetValid(s, s.tweets[i]);
      }
    }
  }

  // --------------------------------------------------------------- Id bounds

  /** Ids of the tweets tagged `h` (`filter(hashtags__in=[h])`). */
  function Tagged(s: Store, h: string): set<int> {
    set id | id in s.tweets && h in s.tweets[id].hashtags
  }

  /** The tweets a query runs over: those tagged `h`, or every tweet when `h`
      is empty (Python treats "" like None). */
  function Scope(s: Store, h: string): set<int> {
    if h != "" then Tagged(s, h) else s.tweets.Keys
  }

  /** `Tweet.get_since_id`: the newest tweet id in scope, if any. */
  function SinceId(s: Store, h: string): (r: Option<int>)
    ensures r.None? <==> Scope(s, h) == {}
    ensures r.Some? ==> r.value in Scope(s, h) && forall id :: id in Scope(s, h) ==> id <= r.value
  {
    var ids := Scope(s, h);
    if ids == {} then None else Some(Folds.Max(ids))
  }

  /** `Tweet.get_max_id`: the oldest tweet id in scope, if any; never above
      the since-id of the same scope. */
  function MaxId(s: Store, h: string): (r: Option<int>)
    ensures r.None? <==> Scope(s, h) == {}
    ensures r.Some? ==> r.value in Scope(s, h) && forall id :: id in Scope(s, h) ==> r.value <= id
    ensures r.Some? ==> SinceId(s, h).Some? && r.value <= SinceId(s, h).value
  {
    var ids := Scope(s, h);
    if ids == {} then None else Some(Folds.Min(ids))
  }
}

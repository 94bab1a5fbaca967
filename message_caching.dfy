/**
 * The per-channel recency cache (src/redis/messageCaching.ts): one Redis
 * sorted set per channel, keyed `channel:{id}:messages`, whose members are
 * messages scored by their creation time in milliseconds. Writes insert and
 * trim, or rewrite and remove an entry found by message id; reads serve the
 * newest messages and backward pages, falling back to the database.
 */
module MessageCaching {
  import opened Models
  import opened Decimal
  import opened SortedSets
  import opened RedisStore
  import opened PrismaDb

  /** Entries kept per channel. */
  const CacheCapacity: nat := 100
  /** Seconds a channel's cache lives after its last cached message. */
  const CacheTtlSeconds: int := 86400

  // -----------------------------------------------------------------------
  // Keys

  function ChannelMessagesKey(channelId: int): (key: string)
    ensures |key| >= 18 && key[..8] == "channel:" && key[|key| - 9..] == ":messages"
  {
    "channel:" + IntToString(channelId) + ":messages"
  }

  /** The channel a cache key belongs to, if it is a cache key. */
  function ChannelIdOfKey(key: string): (r: Option<int>) {
    if |key| >= 17 && key[..8] == "channel:" && key[|key| - 9..] == ":messages"
    then ParseInt(key[8..|key| - 9])
    else None
  }

  lemma ChannelKeyRoundTrip(channelId: int)
    ensures ChannelIdOfKey(ChannelMessagesKey(channelId)) == Some(channelId)
  {
    var d := IntToString(channelId);
    var key := ChannelMessagesKey(channelId);
    assert key[..8] == "channel:";
    assert key[|key| - 9..] == ":messages";
    assert key[8..|key| - 9] == d;
    ParseIntToString(channelId);
  }

  /** Distinct channels have distinct keys, so no operation on one channel reaches another's set. */
  lemma ChannelKeyInjective(a: int, b: int)
    requires a != b
    ensures ChannelMessagesKey(a) != ChannelMessagesKey(b)
  {
    ChannelKeyRoundTrip(a);
    ChannelKeyRoundTrip(b);
  }

  // -----------------------------------------------------------------------
  // What the writes do to one channel's sorted set

  /** Every entry is scored by its message's creation time. */
  predicate ScoresAreCreationTimes(s: seq<Entry>) {
    forall i :: 0 <= i < |s| ==> s[i].score == s[i].member.createdAt
  }

  /** No two cached messages share an id. */
  predicate DistinctIds(s: seq<Entry>) {
    forall i, j :: 0 <= i < j < |s| ==> s[i].member.id != s[j].member.id
  }

  /** cacheMessage: ZADD scored by createdAt, then ZREMRANGEBYRANK 0 -101. */
  function AfterCache(s: seq<Entry>, m: Message): (r: seq<Entry>) {
    ZRemRangeByRank(ZAdd(s, m.createdAt, m), 0, -(CacheCapacity + 1))
  }

  /** The first entry, in ascending order, whose message has the id. */
  function FirstWithId(s: seq<Entry>, id: string): (r: Option<nat>)
    ensures r.None? <==> forall i :: 0 <= i < |s| ==> s[i].member.id != id
    ensures r.Some? ==> r.value < |s| && s[r.value].member.id == id
    ensures r.Some? ==> forall j :: 0 <= j < r.value ==> s[j].member.id != id
  {
    if |s| == 0 then None
    else if s[0].member.id == id then Some(0)
    else
      match FirstWithId(s[1..], id)
      case None => None
      case Some(k) => Some(k + 1)
  }

  /** The message as editMessageFromCache rewrites it. */
  function Edited(m: Message, newContent: string, now: int): (r: Message) {
    m.(content := newContent, edited := true, editedAt := Some(now))
  }

  /** editMessageFromCache: ZREM the first entry with the id, ZADD its rewrite with the old score. */
  function AfterEdit(s: seq<Entry>, id: string, newContent: string, now: int): (r: seq<Entry>) {
    match FirstWithId(s, id)
    case None => s
    case Some(i) => ZAdd(ZRem(s, s[i].member), s[i].score, Edited(s[i].member, newContent, now))
  }

  /** deleteMessageFromCache: ZREM the first entry with the id. */
  function AfterDelete(s: seq<Entry>, id: string): (r: seq<Entry>) {
    match FirstWithId(s, id)
    case None => s
    case Some(i) => ZRem(s, s[i].member)
  }

  /**
   * After cacheMessage a channel holds at most CacheCapacity entries: the
   * highest-scored run of the set with the new message added.
   */
  lemma CacheMessageKeepsNewest(s: seq<Entry>, m: Message)
    requires IsZSet(s)
    ensures var z := ZAdd(s, m.createdAt, m);
            var n := if |z| < CacheCapacity then |z| else CacheCapacity;
            && IsZSet(AfterCache(s, m))
            && AfterCache(s, m) == z[|z| - n..]
            && 1 <= |AfterCache(s, m)| <= CacheCapacity
            && forall i, j :: 0 <= i < |z| - n <= j < |z| ==> z[i].score <= z[j].score
  {
    var z := ZAdd(s, m.createdAt, m);
    var r := AfterCache(s, m);
    ZAddSpec(s, m.createdAt, m);
    assert r == ZRemRangeByRank(z, 0, -(CacheCapacity + 1));
    TrimKeepsHighest(z, CacheCapacity);
    RemRangeKeepsZSet(z, 0, -(CacheCapacity + 1));
    assert |z| >= 1;
  }

  /**
   * The cached message is kept with its creation time as score, unless the
   * cache is full of entries no older than it; nothing but it is added.
   */
  lemma CacheMessageStoresMessage(s: seq<Entry>, m: Message)
    requires IsZSet(s)
    ensures forall e :: e in AfterCache(s, m) ==> e == Entry(m.createdAt, m) || (e in s && e.member != m)
    ensures Entry(m.createdAt, m) in AfterCache(s, m) ||
            (|AfterCache(s, m)| == CacheCapacity && forall e :: e in AfterCache(s, m) ==> e.score >= m.createdAt)
    ensures |s| < CacheCapacity ==> Entry(m.createdAt, m) in AfterCache(s, m)
    ensures ScoresAreCreationTimes(s) ==> ScoresAreCreationTimes(AfterCache(s, m))
  {
    var z := ZAdd(s, m.createdAt, m);
    var n := if |z| < CacheCapacity then |z| else CacheCapacity;
    var r := AfterCache(s, m);
    var e := Entry(m.createdAt, m);
    CacheMessageKeepsNewest(s, m);
    ZAddSpec(s, m.createdAt, m);
    assert r == z[|z| - n..];
    assert forall x :: x in r ==> x in z;
    SuffixKeepsOrOutranks(z, n, e);
    if ScoresAreCreationTimes(s) {
      ScoresCarryOver(s, r, e);
    }
  }

  /** Entries drawn from a set scored by creation time, plus one more so scored, are so scored. */
  lemma ScoresCarryOver(s: seq<Entry>, t: seq<Entry>, e: Entry)
    requires ScoresAreCreationTimes(s) && e.score == e.member.createdAt
    requires forall x :: x in t ==> x == e || x in s
    ensures ScoresAreCreationTimes(t)
  {
    forall i | 0 <= i < |t| ensures t[i].score == t[i].member.createdAt {
      assert t[i] in t;
      if t[i] != e {
        var j :| 0 <= j < |s| && s[j] == t[i];
      }
    }
  }

  /**
   * An edit replaces the first entry with the id by its rewrite, under the
   * same score: new content, marked edited, creation time unchanged.
   */
  lemma EditRewritesEntry(s: seq<Entry>, id: string, newContent: string, now: int)
    requires IsZSet(s) && FirstWithId(s, id).Some?
    ensures var e := s[FirstWithId(s, id).value];
            var e' := Entry(e.score, Edited(e.member, newContent, now));
            && IsZSet(AfterEdit(s, id, newContent, now))
            && e' in AfterEdit(s, id, newContent, now)
            && e'.member.createdAt == e.member.createdAt && e'.member.id == id
            && e'.member.content == newContent && e'.member.edited
            && (forall x :: x in AfterEdit(s, id, newContent, now) <==>
                  x == e' || (x in s && x != e && x.member != e'.member))
            && (ScoresAreCreationTimes(s) ==> ScoresAreCreationTimes(AfterEdit(s, id, newContent, now)))
  {
    var i := FirstWithId(s, id).value;
    var e := s[i];
    var e' := Entry(e.score, Edited(e.member, newContent, now));
    var t := ZRem(s, e.member);
    ZRemSpec(s, e.member);
    ZAddSpec(t, e.score, e'.member);
    var r := AfterEdit(s, id, newContent, now);
    forall x | x in s && x.member == e.member ensures x == e {
      var j :| 0 <= j < |s| && s[j] == x;
      assert j == i;
    }
    if ScoresAreCreationTimes(s) {
      forall k | 0 <= k < |r| ensures r[k].score == r[k].member.createdAt {
        assert r[k] in r;
        if r[k] != e' {
          var j :| 0 <= j < |s| && s[j] == r[k];
        }
      }
    }
  }

  /** With ids distinct, an edit keeps the number of entries and every other entry. */
  lemma EditKeepsOtherEntries(s: seq<Entry>, id: string, newContent: string, now: int)
    requires IsZSet(s) && DistinctIds(s) && FirstWithId(s, id).Some?
    ensures var e := s[FirstWithId(s, id).value];
            var e' := Entry(e.score, Edited(e.member, newContent, now));
            && |AfterEdit(s, id, newContent, now)| == |s|
            && forall x :: x in AfterEdit(s, id, newContent, now) <==> x == e' || (x in s && x != e)
  {
    var i := FirstWithId(s, id).value;
    var e := s[i];
    var e' := Entry(e.score, Edited(e.member, newContent, now));
    var t := ZRem(s, e.member);
    EditRewritesEntry(s, id, newContent, now);
    ZRemSpec(s, e.member);
    IndexOfDistinct(s, i);
    assert HasMember(s, e.member);
    forall j | 0 <= j < |t| ensures t[j].member != e'.member {
      assert t[j] in s && t[j] != e;
      var k :| 0 <= k < |s| && s[k] == t[j];
      assert k != i;
    }
    ZAddSpec(t, e.score, e'.member);
    forall x | x in s && x != e ensures x.member != e'.member {
      var k :| 0 <= k < |s| && s[k] == x;
      assert k != i;
    }
  }

  /** A delete removes exactly the first entry with the id. */
  lemma DeleteRemovesEntry(s: seq<Entry>, id: string)
    requires IsZSet(s) && FirstWithId(s, id).Some?
    ensures var i := FirstWithId(s, id).value;
            && AfterDelete(s, id) == s[..i] + s[i + 1..]
            && |AfterDelete(s, id)| == |s| - 1
            && IsZSet(AfterDelete(s, id))
            && (forall x :: x in AfterDelete(s, id) <==> x in s && x != s[i])
            && (ScoresAreCreationTimes(s) ==> ScoresAreCreationTimes(AfterDelete(s, id)))
            && (DistinctIds(s) ==> forall x :: x in AfterDelete(s, id) ==> x.member.id != id)
  {
    var i := FirstWithId(s, id).value;
    var r := AfterDelete(s, id);
    IndexOfDistinct(s, i);
    assert r == s[..i] + s[i + 1..];
    RemoveAtKeepsZSet(s, i);
    if ScoresAreCreationTimes(s) {
      ScoresCarryOver(s, r, s[i]);
    }
    if DistinctIds(s) {
      forall x | x in r ensures x.member.id != id {
        var k :| 0 <= k < |r| && r[k] == x;
        assert r[k] == s[if k < i then k else k + 1];
      }
    }
  }

  // -----------------------------------------------------------------------
  // The writes

  /** cacheMessage: add, trim to CacheCapacity, reset the key's time-to-live. */
  method CacheMessage(redis: Redis, channelId: int, message: Message)
    requires redis.Valid()
    modifies redis
    ensures redis.Valid()
    ensures var key := ChannelMessagesKey(channelId);
            && redis.zsets == old(redis.zsets)[key := AfterCache(old(redis.Get(key)), message)]
            && redis.ttl == old(redis.ttl)[key := CacheTtlSeconds]
  {
    var key := ChannelMessagesKey(channelId);
    ghost var s := redis.Get(key);
    ghost var z := ZAdd(s, message.createdAt, message);
    ghost var t := AfterCache(s, message);
    CacheMessageKeepsNewest(s, message);
    redis.ZAdd(key, message.createdAt, message);
    assert redis.Get(key) == z;
    var _ := redis.ZRemRangeByRank(key, 0, -101);
    assert t == ZRemRangeByRank(z, 0, -101) && t != [];
    StoredThenSet(old(redis.zsets), key, z, t);
    assert redis.zsets == old(redis.zsets)[key := t];
    var _ := redis.Expire(key, CacheTtlSeconds);
  }

  /**
   * editMessageFromCache: scan the channel's entries in ascending order for
   * the first message with the id; if there is one, replace it by its rewrite
   * under the same score and answer true, otherwise change nothing and answer
   * false. When that entry was the only one, removing it deletes the key, so
   * the re-added key has no time-to-live.
   */
  method EditMessageFromCache(redis: Redis, channelId: int, messageId: string, newContent: string, now: int)
    returns (found: bool)
    requires redis.Valid()
    modifies redis
    ensures redis.Valid()
    ensures var key := ChannelMessagesKey(channelId);
            var s := old(redis.Get(key));
            && found == FirstWithId(s, messageId).Some?
            && redis.zsets == (if found then old(redis.zsets)[key := AfterEdit(s, messageId, newContent, now)]
                               else old(redis.zsets))
            && redis.ttl == (if found && |s| == 1 then old(redis.ttl) - {key} else old(redis.ttl))
  {
    var key := ChannelMessagesKey(channelId);
    ghost var s := redis.Get(key);
    var messages := redis.ZRange(key, 0, -1);
    assert SortedSets.ZRange(s, 0, -1) == s;
    for i := 0 to |messages|
      invariant redis.zsets == old(redis.zsets) && redis.ttl == old(redis.ttl)
      invariant forall j :: 0 <= j < i ==> messages[j].id != messageId
    {
      var message := messages[i];
      if message.id == messageId {
        assert FirstWithId(s, messageId) == Some(i);
        IndexOfDistinct(s, i);
        var score := redis.ZScore(key, message);
        if score.None? {
          return false;
        }
        var updated := message.(content := newContent, edited := true, editedAt := Some(now));
        ghost var t := ZRem(s, message);
        ZRemSpec(s, message);
        assert AfterEdit(s, messageId, newContent, now) == ZAdd(t, score.value, updated);
        var _ := redis.ZRem(key, message);
        assert redis.Get(key) == t;
        redis.ZAdd(key, score.value, updated);
        StoredThenSet(old(redis.zsets), key, t, ZAdd(t, score.value, updated));
        return true;
      }
    }
    return false;
  }

  /**
   * deleteMessageFromCache: scan the channel's entries in ascending order for
   * the first message with the id; if there is one, remove it and answer
   * whether ZREM removed something, otherwise change nothing and answer false.
   */
  method DeleteMessageFromCache(redis: Redis, channelId: int, messageId: string) returns (found: bool)
    requires redis.Valid()
    modifies redis
    ensures redis.Valid()
    ensures var key := ChannelMessagesKey(channelId);
            var s := old(redis.Get(key));
            && found == FirstWithId(s, messageId).Some?
            && redis.zsets == (if found then Stored(old(redis.zsets), key, AfterDelete(s, messageId))
                               else old(redis.zsets))
            && redis.ttl == (if found && |s| == 1 then old(redis.ttl) - {key} else old(redis.ttl))
  {
    var key := ChannelMessagesKey(channelId);
    ghost var s := redis.Get(key);
    var messages := redis.ZRange(key, 0, -1);
    assert SortedSets.ZRange(s, 0, -1) == s;
    for i := 0 to |messages|
      invariant redis.zsets == old(redis.zsets) && redis.ttl == old(redis.ttl)
      invariant forall j :: 0 <= j < i ==> messages[j].id != messageId
    {
      var message := messages[i];
      if message.id == messageId {
        assert FirstWithId(s, messageId) == Some(i);
        IndexOfDistinct(s, i);
        ZRemSpec(s, message);
        var removed := redis.ZRem(key, message);
        return removed > 0;
      }
    }
    return false;
  }

  // -----------------------------------------------------------------------
  // The reads

  /**
   * getRecentMessages: ZREVRANGE 0 (limit - 1), read back to front. It is the
   * ascending run of the RecentCount(size, limit) highest-scored messages
   * (for a limit of at least 1, min(limit, size) of them).
   */
  function GetRecentMessages(redis: Redis, channelId: int, limit: int): (r: seq<Message>)
    reads redis
    ensures var s := redis.Get(ChannelMessagesKey(channelId));
            r == Members(s[|s| - RecentCount(|s|, limit)..])
  {
    var key := ChannelMessagesKey(channelId);
    var s := redis.Get(key);
    RecentIsSuffix(s, limit);
    assert redis.ZRevRange(key, 0, limit - 1) == Members(SortedSets.ZRevRange(s, 0, limit - 1));
    Reverse(redis.ZRevRange(key, 0, limit - 1))
  }

  /** hasCachedMessages: EXISTS on the channel's key. */
  function HasCachedMessages(redis: Redis, channelId: int): (r: bool)
    reads redis
    requires redis.Valid()
    ensures r <==> redis.Get(ChannelMessagesKey(channelId)) != []
  {
    redis.Exists(ChannelMessagesKey(channelId)) == 1
  }

  /** Whether a backward page before `oldestTimestamp` may be served from the cache. */
  predicate CacheCovers(s: seq<Entry>, oldestTimestamp: int) {
    |s| > 0 && s[0].member.createdAt < oldestTimestamp
  }

  /** The cache page: the newest `limit` entries scored at most oldestTimestamp - 1, ascending. */
  function CachePage(s: seq<Entry>, oldestTimestamp: int, limit: nat): (r: seq<Message>) {
    var k := UpperBound(s, oldestTimestamp - 1);
    var c := if limit < k then limit else k;
    Members(s[k - c..k])
  }

  /**
   * fetchMessagesFromDB: the channel's messages created before `olderThan`,
   * newest first, the first `limit` of them, then read back to front.
   */
  function FetchMessagesFromDB(db: Database, channelId: int, olderThan: int, limit: nat): (r: seq<Message>)
    reads db
    ensures |r| <= limit
  {
    Reverse(Take(OrderByCreatedAtDesc(WhereOlder(db.messages, channelId, olderThan)), limit))
  }

  /**
   * loadOlderMessages: read the channel's lowest-scored entry; if there is one
   * and it was created before `oldestTimestamp`, answer the cache page,
   * otherwise answer from the database.
   */
  function LoadOlderMessages(redis: Redis, db: Database, channelId: int, oldestTimestamp: int, limit: nat)
    : (r: seq<Message>)
    reads redis, db
    ensures var s := redis.Get(ChannelMessagesKey(channelId));
            && (CacheCovers(s, oldestTimestamp) ==> r == CachePage(s, oldestTimestamp, limit))
            && (!CacheCovers(s, oldestTimestamp) ==> r == FetchMessagesFromDB(db, channelId, oldestTimestamp, limit))
  {
    var key := ChannelMessagesKey(channelId);
    var oldestCachedMessage := redis.ZRange(key, 0, 0);
    if |oldestCachedMessage| > 0 && oldestCachedMessage[0].createdAt < oldestTimestamp then
      RevRangeByScoreIsNewestBelow(redis.Get(key), oldestTimestamp - 1, limit);
      ReverseMembers(SortedSets.ZRevRangeByScore(redis.Get(key), oldestTimestamp - 1, limit));
      Reverse(redis.ZRevRangeByScore(key, oldestTimestamp - 1, limit))
    else
      FetchMessagesFromDB(db, channelId, oldestTimestamp, limit)
  }

  lemma RecentIsSuffix(s: seq<Entry>, limit: int)
    ensures Reverse(Members(SortedSets.ZRevRange(s, 0, limit - 1))) == Members(s[|s| - RecentCount(|s|, limit)..])
  {
    RevRangeIsNewestSuffix(s, limit);
    ReverseMembers(SortedSets.ZRevRange(s, 0, limit - 1));
  }

  lemma ReverseMembers(s: seq<Entry>)
    ensures Reverse(Members(s)) == Members(Reverse(s))
  {
  }

  // -----------------------------------------------------------------------
  // Properties of the reads

  /**
   * For a limit of at least 1, getRecentMessages answers min(limit, size)
   * messages, no older than any cached message it leaves out, in ascending
   * order when every score is the creation time.
   */
  lemma RecentMessagesAreNewest(redis: Redis, channelId: int, limit: int)
    requires redis.Valid() && limit >= 1
    ensures var s := redis.Get(ChannelMessagesKey(channelId));
            var r := GetRecentMessages(redis, channelId, limit);
            && |r| == (if limit < |s| then limit else |s|)
            && (forall i, j :: 0 <= i < |s| - |r| <= j < |s| ==> s[i].score <= s[j].score)
            && (forall j :: 0 <= j < |r| ==> r[j] == s[|s| - |r| + j].member)
            && (ScoresAreCreationTimes(s) ==> Ascending(r))
  {
    var key := ChannelMessagesKey(channelId);
    assert key in redis.zsets ==> IsZSet(redis.zsets[key]);
  }

  /** The cache has messages exactly when a recent page of at least one is non-empty. */
  lemma HasCachedIffRecentNonEmpty(redis: Redis, channelId: int, limit: int)
    requires redis.Valid() && limit >= 1
    ensures HasCachedMessages(redis, channelId) <==> GetRecentMessages(redis, channelId, limit) != []
  {
    var s := redis.Get(ChannelMessagesKey(channelId));
    if s != [] {
      assert |GetRecentMessages(redis, channelId, limit)| == RecentCount(|s|, limit) >= 1;
    }
  }

  /**
   * The cache page holds min(limit, k) of the k cached messages created
   * before `oldestTimestamp`, and only such messages; it is non-empty when
   * the cache covers the request and `limit` is at least 1.
   */
  lemma CachePageIsOlder(s: seq<Entry>, oldestTimestamp: int, limit: nat)
    requires Sorted(s) && ScoresAreCreationTimes(s)
    ensures var r := CachePage(s, oldestTimestamp, limit);
            var k := UpperBound(s, oldestTimestamp - 1);
            && (forall i :: 0 <= i < |s| ==> (s[i].member.createdAt < oldestTimestamp <==> i < k))
            && |r| == (if limit < k then limit else k)
            && (forall x :: x in r ==> x.createdAt < oldestTimestamp)
            && (CacheCovers(s, oldestTimestamp) && limit >= 1 ==> |r| >= 1)
  {
    var k := UpperBound(s, oldestTimestamp - 1);
    var c := if limit < k then limit else k;
    assert CachePage(s, oldestTimestamp, limit) == Members(s[k - c..k]);
    UpperBoundSplits(s, oldestTimestamp - 1);
    WindowIsBelow(s, k - c, oldestTimestamp);
  }

  /**
   * The cache page is in ascending order, and any cached message created
   * before `oldestTimestamp` that is newer than one it holds is in it too.
   */
  lemma CachePageIsNewest(s: seq<Entry>, oldestTimestamp: int, limit: nat)
    requires Sorted(s) && ScoresAreCreationTimes(s)
    ensures var r := CachePage(s, oldestTimestamp, limit);
            && Ascending(r)
            && (forall x, y :: x in Members(s) && x.createdAt < oldestTimestamp && y in r ==>
                  x in r || x.createdAt <= y.createdAt)
  {
    var k := UpperBound(s, oldestTimestamp - 1);
    var c := if limit < k then limit else k;
    assert CachePage(s, oldestTimestamp, limit) == Members(s[k - c..k]);
    WindowAscending(s, k - c, k);
    WindowIsNewestBelow(s, k - c, oldestTimestamp);
  }

  /** A window ending at UpperBound(s, t - 1) holds messages created before `t`. */
  lemma WindowIsBelow(s: seq<Entry>, a: nat, t: int)
    requires ScoresAreCreationTimes(s) && a <= UpperBound(s, t - 1)
    ensures forall x :: x in Members(s[a..UpperBound(s, t - 1)]) ==> x.createdAt < t
  {
    var r := Members(s[a..UpperBound(s, t - 1)]);
    forall x | x in r ensures x.createdAt < t {
      var q :| 0 <= q < |r| && r[q] == x;
      assert x == s[a + q].member;
    }
  }

  /** A window of a sorted set scored by creation time lists its messages in ascending order. */
  lemma WindowAscending(s: seq<Entry>, a: nat, b: nat)
    requires Sorted(s) && ScoresAreCreationTimes(s) && a <= b <= |s|
    ensures Ascending(Members(s[a..b]))
  {
    var r := Members(s[a..b]);
    forall i, j | 0 <= i < j < |r| ensures r[i].createdAt <= r[j].createdAt {
      assert r[i] == s[a + i].member && r[j] == s[a + j].member;
    }
  }

  /**
   * A window ending at the last entry scored below `t` holds every message
   * below `t` that is newer than one of its own.
   */
  lemma WindowIsNewestBelow(s: seq<Entry>, a: nat, t: int)
    requires Sorted(s) && ScoresAreCreationTimes(s) && a <= UpperBound(s, t - 1)
    ensures var r := Members(s[a..UpperBound(s, t - 1)]);
            forall x, y :: x in Members(s) && x.createdAt < t && y in r ==> x in r || x.createdAt <= y.createdAt
  {
    var k := UpperBound(s, t - 1);
    var r := Members(s[a..k]);
    forall x, y | x in Members(s) && x.createdAt < t && y in r ensures x in r || x.createdAt <= y.createdAt {
      var p :| 0 <= p < |s| && Members(s)[p] == x;
      var q :| 0 <= q < |r| && r[q] == y;
      BelowUpperBound(s, t - 1, p);
      if a <= p {
        assert r[p - a] == x;
      } else {
        assert s[p].score <= s[a + q].score;
      }
    }
  }

  lemma ReverseMultiset(s: seq<Message>)
    ensures multiset(Reverse(s)) == multiset(s)
  {
    if |s| > 0 {
      assert Reverse(s) == Reverse(s[1..]) + [s[0]];
      assert s == [s[0]] + s[1..];
      ReverseMultiset(s[1..]);
    }
  }

  /** In a newest-first list, nothing after a split point is newer than anything before it. */
  lemma SplitIsNewestFirst(p: seq<Message>, q: seq<Message>)
    requires Descending(p + q)
    ensures Descending(p)
    ensures forall x, y :: x in q && y in p ==> x.createdAt <= y.createdAt
  {
    var d := p + q;
    forall i, j | 0 <= i < j < |p| ensures p[i].createdAt >= p[j].createdAt {
      assert p[i] == d[i] && p[j] == d[j];
    }
    forall x, y | x in q && y in p ensures x.createdAt <= y.createdAt {
      var a :| 0 <= a < |q| && q[a] == x;
      var b :| 0 <= b < |p| && p[b] == y;
      assert d[|p| + a] == x && d[b] == y;
    }
  }

  /**
   * Reading back to front the first entries of a newest-first ordering of `f`
   * gives an ascending page of `f` no older than what it leaves out.
   */
  lemma NewestPage(f: seq<Message>, d: seq<Message>, p: seq<Message>)
    requires Descending(d) && multiset(d) == multiset(f) && |p| <= |d| && p == d[..|p|]
    ensures Ascending(Reverse(p))
    ensures multiset(Reverse(p)) <= multiset(f)
    ensures forall x: Message, y: Message :: x in multiset(f) - multiset(Reverse(p)) && y in Reverse(p) ==>
              x.createdAt <= y.createdAt
  {
    var q := d[|p|..];
    assert d == p + q;
    SplitIsNewestFirst(p, q);
    ReverseDescendingIsAscending(p);
    ReverseMultiset(p);
    assert multiset(d) == multiset(p) + multiset(q);
    assert multiset(f) - multiset(Reverse(p)) == multiset(q);
    forall y | y in Reverse(p) ensures y in p {
      assert y in multiset(Reverse(p));
    }
  }

  /**
   * fetchMessagesFromDB answers min(limit, n) of the n messages of the
   * channel created before `olderThan`, ascending, and none of those it
   * leaves out is newer than one it answers.
   */
  lemma FetchMessagesAreNewestOlder(db: Database, channelId: int, olderThan: int, limit: nat)
    ensures var f := WhereOlder(db.messages, channelId, olderThan);
            var r := FetchMessagesFromDB(db, channelId, olderThan, limit);
            && |r| == (if limit < |f| then limit else |f|)
            && Ascending(r)
            && (forall x :: x in r ==> x in db.messages && x.channelId == channelId && x.createdAt < olderThan)
            && multiset(r) <= multiset(f)
            && (forall x: Message, y: Message :: x in multiset(f) - multiset(r) && y in r ==> x.createdAt <= y.createdAt)
  {
    var f := WhereOlder(db.messages, channelId, olderThan);
    var d := OrderByCreatedAtDesc(f);
    var p := Take(d, limit);
    var r := FetchMessagesFromDB(db, channelId, olderThan, limit);
    assert r == Reverse(p);
    NewestPage(f, d, p);
    forall x | x in r ensures x in db.messages && x.channelId == channelId && x.createdAt < olderThan {
      assert x in multiset(r);
      assert x in f;
      assert x in multiset(db.messages);
    }
  }

  /**
   * Whichever store answers, a backward page holds at most `limit` messages
   * of the channel, all created before `oldestTimestamp`, in ascending order,
   * provided every cached entry of the channel is scored by its creation time
   * and belongs to the channel.
   */
  lemma LoadOlderMessagesAreOlder(redis: Redis, db: Database, channelId: int, oldestTimestamp: int, limit: nat)
    requires redis.Valid()
    requires ScoresAreCreationTimes(redis.Get(ChannelMessagesKey(channelId)))
    requires forall e :: e in redis.Get(ChannelMessagesKey(channelId)) ==> e.member.channelId == channelId
    ensures var r := LoadOlderMessages(redis, db, channelId, oldestTimestamp, limit);
            && |r| <= limit
            && Ascending(r)
            && (forall x :: x in r ==> x.channelId == channelId && x.createdAt < oldestTimestamp)
            && (CacheCovers(redis.Get(ChannelMessagesKey(channelId)), oldestTimestamp) && limit >= 1 ==> |r| >= 1)
  {
    var key := ChannelMessagesKey(channelId);
    var s := redis.Get(key);
    var r := LoadOlderMessages(redis, db, channelId, oldestTimestamp, limit);
    assert IsZSet(s) by {
      if key in redis.zsets {
        assert IsZSet(redis.zsets[key]);
      }
    }
    if CacheCovers(s, oldestTimestamp) {
      assert r == CachePage(s, oldestTimestamp, limit);
      CachePageIsOlder(s, oldestTimestamp, limit);
      CachePageIsNewest(s, oldestTimestamp, limit);
      CachePageOfChannel(s, oldestTimestamp, limit, channelId);
    } else {
      assert r == FetchMessagesFromDB(db, channelId, oldestTimestamp, limit);
      FetchMessagesAreNewestOlder(db, channelId, oldestTimestamp, limit);
    }
  }

  /** A cache page of a channel's set holds messages of that channel only. */
  lemma CachePageOfChannel(s: seq<Entry>, oldestTimestamp: int, limit: nat, channelId: int)
    requires forall e :: e in s ==> e.member.channelId == channelId
    ensures forall x :: x in CachePage(s, oldestTimestamp, limit) ==> x.channelId == channelId
  {
    var k := UpperBound(s, oldestTimestamp - 1);
    var c := if limit < k then limit else k;
    var r := CachePage(s, oldestTimestamp, limit);
    forall x | x in r ensures x.channelId == channelId {
      var j :| 0 <= j < |r| && r[j] == x;
      assert s[k - c + j] in s;
    }
  }
}

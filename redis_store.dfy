/**
 * The part of a Redis server the message cache uses: a keyspace of sorted
 * sets, each key optionally carrying a time-to-live set by EXPIRE. A key whose
 * sorted set becomes empty no longer exists, and loses its time-to-live with it.
 * The ticking of the clock is not modelled: `ttl` holds the seconds EXPIRE set.
 */
module RedisStore {
  import opened Models
  import SortedSets

  /** The keyspace after `key` is given the set `s`: an empty set deletes the key. */
  function Stored(zsets: map<string, seq<Entry>>, key: string, s: seq<Entry>): (r: map<string, seq<Entry>>) {
    if s == [] then zsets - {key} else zsets[key := s]
  }

  /** Setting a key after storing it only keeps the last write. */
  lemma StoredThenSet(zsets: map<string, seq<Entry>>, key: string, s: seq<Entry>, t: seq<Entry>)
    ensures Stored(zsets, key, s)[key := t] == zsets[key := t]
  {
  }

  class Redis {
    var zsets: map<string, seq<Entry>>
    var ttl: map<string, int>

    ghost predicate Valid()
      reads this
    {
      && (forall key :: key in zsets ==> zsets[key] != [] && SortedSets.IsZSet(zsets[key]))
      && ttl.Keys <= zsets.Keys
    }

    constructor ()
      ensures Valid() && zsets == map[] && ttl == map[]
    {
      zsets := map[];
      ttl := map[];
    }

    /** The sorted set stored at `key`; a missing key reads as the empty set. */
    function Get(key: string): (s: seq<Entry>)
      reads this
    {
      if key in zsets then zsets[key] else []
    }

    /** EXISTS for one key: 1 if it is present, 0 otherwise. */
    function Exists(key: string): (r: int)
      reads this
      ensures r == 1 <==> key in zsets
      ensures r == 0 <==> key !in zsets
    {
      if key in zsets then 1 else 0
    }

    /** ZRANGE key start stop: the members, ascending by score. */
    function ZRange(key: string, start: int, stop: int): (r: seq<Message>)
      reads this
    {
      Members(SortedSets.ZRange(Get(key), start, stop))
    }

    /** ZREVRANGE key start stop: the members, highest score first. */
    function ZRevRange(key: string, start: int, stop: int): (r: seq<Message>)
      reads this
    {
      Members(SortedSets.ZRevRange(Get(key), start, stop))
    }

    /** ZREVRANGEBYSCORE key max -inf LIMIT 0 count. */
    function ZRevRangeByScore(key: string, max: int, count: int): (r: seq<Message>)
      reads this
    {
      Members(SortedSets.ZRevRangeByScore(Get(key), max, count))
    }

    /** ZSCORE key member. */
    function ZScore(key: string, member: Message): (r: Option<int>)
      reads this
      ensures r.Some? <==> SortedSets.HasMember(Get(key), member)
      ensures key !in zsets ==> r.None?
    {
      SortedSets.ZScore(Get(key), member)
    }

    method ZAdd(key: string, score: int, member: Message)
      requires Valid()
      modifies this
      ensures Valid()
      ensures zsets == old(zsets)[key := SortedSets.ZAdd(old(Get(key)), score, member)]
      ensures ttl == old(ttl)
    {
      SortedSets.ZAddSpec(Get(key), score, member);
      zsets := zsets[key := SortedSets.ZAdd(Get(key), score, member)];
    }

    method ZRem(key: string, member: Message) returns (removed: int)
      requires Valid()
      modifies this
      ensures Valid()
      ensures removed == if SortedSets.HasMember(old(Get(key)), member) then 1 else 0
      ensures zsets == Stored(old(zsets), key, SortedSets.ZRem(old(Get(key)), member))
      ensures ttl == if SortedSets.ZRem(old(Get(key)), member) == [] then old(ttl) - {key} else old(ttl)
    {
      var s := Get(key);
      SortedSets.ZRemSpec(s, member);
      removed := if SortedSets.HasMember(s, member) then 1 else 0;
      var t := SortedSets.ZRem(s, member);
      zsets := Stored(zsets, key, t);
      if t == [] {
        ttl := ttl - {key};
      }
    }

    method ZRemRangeByRank(key: string, start: int, stop: int) returns (removed: int)
      requires Valid()
      modifies this
      ensures Valid()
      ensures removed == |old(Get(key))| - |SortedSets.ZRemRangeByRank(old(Get(key)), start, stop)|
      ensures zsets == Stored(old(zsets), key, SortedSets.ZRemRangeByRank(old(Get(key)), start, stop))
      ensures ttl == if SortedSets.ZRemRangeByRank(old(Get(key)), start, stop) == [] then old(ttl) - {key} else old(ttl)
    {
      var s := Get(key);
      var t := SortedSets.ZRemRangeByRank(s, start, stop);
      SortedSets.RemRangeKeepsZSet(s, start, stop);
      removed := |s| - |t|;
      zsets := Stored(zsets, key, t);
      if t == [] {
        ttl := ttl - {key};
      }
    }

    /** EXPIRE key seconds: 1 if the key exists (and now has that time-to-live), 0 otherwise. */
    method Expire(key: string, seconds: int) returns (applied: int)
      requires Valid()
      modifies this
      ensures Valid()
      ensures applied == old(Exists(key))
      ensures zsets == old(zsets)
      ensures ttl == if key in zsets then old(ttl)[key := seconds] else old(ttl)
    {
      if key in zsets {
        ttl := ttl[key := seconds];
        applied := 1;
      } else {
        applied := 0;
      }
    }
  }
}

/**
 * The Redis sorted-set commands the message cache issues, as functions on the
 * value of one sorted set: a sequence of entries in ascending score order with
 * no member twice. Redis orders entries of equal score by the bytes of the
 * serialized member; serialization is not modelled, so a member added with a
 * score already present is placed after the entries that have that score.
 */
module SortedSets {
  import opened Models

  predicate Sorted(s: seq<Entry>) {
    forall i, j :: 0 <= i < j < |s| ==> s[i].score <= s[j].score
  }

  predicate DistinctMembers(s: seq<Entry>) {
    forall i, j :: 0 <= i < j < |s| ==> s[i].member != s[j].member
  }

  /** What Redis maintains for the value of every sorted-set key. */
  predicate IsZSet(s: seq<Entry>) {
    Sorted(s) && DistinctMembers(s)
  }

  predicate HasMember(s: seq<Entry>, m: Message) {
    exists i :: 0 <= i < |s| && s[i].member == m
  }

  /** Position of `m` in the set, if it is a member. */
  function IndexOfMember(s: seq<Entry>, m: Message): (r: Option<nat>)
    ensures r.None? <==> !HasMember(s, m)
    ensures r.Some? ==> r.value < |s| && s[r.value].member == m
    ensures r.Some? ==> forall j :: 0 <= j < r.value ==> s[j].member != m
  {
    if |s| == 0 then None
    else if s[0].member == m then Some(0)
    else
      match IndexOfMember(s[1..], m)
      case None => None
      case Some(k) => Some(k + 1)
  }

  /** Number of leading entries whose score is at most `x`. */
  function UpperBound(s: seq<Entry>, x: int): (k: nat)
    ensures k <= |s|
    ensures forall i :: 0 <= i < k ==> s[i].score <= x
    ensures k < |s| ==> s[k].score > x
  {
    if |s| == 0 || s[0].score > x then 0 else 1 + UpperBound(s[1..], x)
  }

  /** ZSCORE: the score of a member, or nil. */
  function ZScore(s: seq<Entry>, m: Message): (r: Option<int>) {
    match IndexOfMember(s, m)
    case None => None
    case Some(i) => Some(s[i].score)
  }

  /** ZREM of one member. */
  function ZRem(s: seq<Entry>, m: Message): (r: seq<Entry>) {
    match IndexOfMember(s, m)
    case None => s
    case Some(i) => s[..i] + s[i + 1..]
  }

  /** ZADD of one member: any previous entry of the member is replaced. */
  function ZAdd(s: seq<Entry>, score: int, m: Message): (r: seq<Entry>) {
    var t := ZRem(s, m);
    var k := UpperBound(t, score);
    t[..k] + [Entry(score, m)] + t[k..]
  }

  /**
   * The half-open window of ranks that Redis selects for `start`..`stop`
   * (inclusive, negative values counting from the end), on a set of `n` entries.
   */
  function RankWindow(n: nat, start: int, stop: int): (w: (nat, nat))
    ensures w.0 <= w.1 <= n
  {
    var a := if start < 0 then start + n else start;
    var b := if stop < 0 then stop + n else stop;
    var a' := if a < 0 then 0 else a;
    if a' > b || a' >= n then (0, 0)
    else (a', if b >= n then n else b + 1)
  }

  /** ZRANGE by rank, ascending. */
  function ZRange(s: seq<Entry>, start: int, stop: int): (r: seq<Entry>)
    ensures |r| <= |s|
    ensures 0 <= start <= stop < |s| ==> |r| == stop - start + 1
  {
    var w := RankWindow(|s|, start, stop);
    s[w.0..w.1]
  }

  /** ZREVRANGE by rank, highest score first. */
  function ZRevRange(s: seq<Entry>, start: int, stop: int): (r: seq<Entry>)
    ensures |r| <= |s|
    ensures 0 <= start <= stop < |s| ==> |r| == stop - start + 1
  {
    var w := RankWindow(|s|, start, stop);
    Reverse(s)[w.0..w.1]
  }

  /** ZREMRANGEBYRANK. */
  function ZRemRangeByRank(s: seq<Entry>, start: int, stop: int): (r: seq<Entry>)
    ensures |r| <= |s|
    ensures 0 <= start <= stop < |s| ==> |r| == |s| - (stop - start + 1)
  {
    var w := RankWindow(|s|, start, stop);
    s[..w.0] + s[w.1..]
  }

  /**
   * ZREVRANGEBYSCORE with bounds `max` and -inf and LIMIT 0 `count`: the entries
   * scored at most `max`, highest first, at most `count` of them (a negative
   * count means no limit).
   */
  function ZRevRangeByScore(s: seq<Entry>, max: int, count: int): (r: seq<Entry>) {
    var d := Reverse(s[..UpperBound(s, max)]);
    if count < 0 || count >= |d| then d else d[..count]
  }

  // ---------------------------------------------------------------------
  // Properties of the commands

  lemma {:induction false} IndexOfDistinct(s: seq<Entry>, i: nat)
    requires DistinctMembers(s) && i < |s|
    ensures IndexOfMember(s, s[i].member) == Some(i)
  {
    assert HasMember(s, s[i].member);
  }

  lemma {:induction false} RemoveAtKeepsZSet(s: seq<Entry>, i: nat)
    requires IsZSet(s) && i < |s|
    ensures IsZSet(s[..i] + s[i + 1..])
    ensures forall e :: e in s[..i] + s[i + 1..] <==> e in s && e != s[i]
  {
    var t := s[..i] + s[i + 1..];
    assert forall k :: 0 <= k < |t| ==> t[k] == s[if k < i then k else k + 1];
    forall e | e in s && e != s[i] ensures e in t {
      var k :| 0 <= k < |s| && s[k] == e;
      assert t[if k < i then k else k - 1] == e;
    }
  }

  /** ZREM keeps the set a sorted set, and removes exactly the entry of `m`. */
  lemma ZRemSpec(s: seq<Entry>, m: Message)
    requires IsZSet(s)
    ensures IsZSet(ZRem(s, m))
    ensures !HasMember(ZRem(s, m), m)
    ensures forall e :: e in ZRem(s, m) <==> e in s && e.member != m
    ensures |ZRem(s, m)| == if HasMember(s, m) then |s| - 1 else |s|
  {
    match IndexOfMember(s, m)
    case None =>
    case Some(i) =>
      RemoveAtKeepsZSet(s, i);
      var t := ZRem(s, m);
      forall k | 0 <= k < |t| ensures t[k].member != m {
        assert t[k] in s && t[k] != s[i];
        var j :| 0 <= j < |s| && s[j] == t[k];
        assert j != i;
      }
      forall e | e in s && e.member != m ensures e != s[i] {}
  }

  /** Inserting `e` at its UpperBound position keeps a sorted set sorted and adds just `e`. */
  lemma InsertSpec(t: seq<Entry>, e: Entry)
    requires IsZSet(t) && !HasMember(t, e.member)
    ensures var r := t[..UpperBound(t, e.score)] + [e] + t[UpperBound(t, e.score)..];
            IsZSet(r) && |r| == |t| + 1 && forall x :: x in r <==> x == e || x in t
  {
    var k := UpperBound(t, e.score);
    var r := t[..k] + [e] + t[k..];
    assert r[k] == e;
    assert forall j :: 0 <= j < k ==> r[j] == t[j];
    assert forall j :: k < j < |r| ==> r[j] == t[j - 1];
    InsertSorted(t, e, k, r);
    InsertDistinct(t, e, k, r);
    InsertMembers(t, e, k, r);
  }

  lemma InsertMembers(t: seq<Entry>, e: Entry, k: nat, r: seq<Entry>)
    requires k <= |t| && |r| == |t| + 1 && r[k] == e
    requires forall j :: 0 <= j < k ==> r[j] == t[j]
    requires forall j :: k < j < |r| ==> r[j] == t[j - 1]
    ensures forall x :: x in r <==> x == e || x in t
  {
    forall x | x in t ensures x in r {
      var j :| 0 <= j < |t| && t[j] == x;
      assert r[if j < k then j else j + 1] == x;
    }
    forall x | x in r ensures x == e || x in t {
      var j :| 0 <= j < |r| && r[j] == x;
      if j < k {
        assert x == t[j];
      } else if j > k {
        assert x == t[j - 1];
      }
    }
  }

  lemma InsertSorted(t: seq<Entry>, e: Entry, k: nat, r: seq<Entry>)
    requires Sorted(t) && k == UpperBound(t, e.score) && |r| == |t| + 1
    requires k < |r| && r[k] == e
    requires forall j :: 0 <= j < k ==> r[j] == t[j]
    requires forall j :: k < j < |r| ==> r[j] == t[j - 1]
    ensures Sorted(r)
  {
    UpperBoundSplits(t, e.score);
    forall i, j | 0 <= i < j < |r| ensures r[i].score <= r[j].score {
      if j < k {
        assert r[i] == t[i] && r[j] == t[j];
      } else if i > k {
        assert r[i] == t[i - 1] && r[j] == t[j - 1];
      } else if i == k {
        assert r[j] == t[j - 1];
      } else if j == k {
        assert r[i] == t[i];
      } else {
        assert r[i] == t[i] && r[j] == t[j - 1];
      }
    }
  }

  lemma InsertDistinct(t: seq<Entry>, e: Entry, k: nat, r: seq<Entry>)
    requires DistinctMembers(t) && !HasMember(t, e.member) && k <= |t| && |r| == |t| + 1
    requires k < |r| && r[k] == e
    requires forall j :: 0 <= j < k ==> r[j] == t[j]
    requires forall j :: k < j < |r| ==> r[j] == t[j - 1]
    ensures DistinctMembers(r)
  {
    forall i, j | 0 <= i < j < |r| ensures r[i].member != r[j].member {
      if i == k {
        assert r[j] == t[j - 1] && t[j - 1].member != e.member;
      } else if j == k {
        assert r[j] == e && r[i] == t[i] && t[i].member != e.member;
      } else if j < k {
        assert r[i] == t[i] && r[j] == t[j] && t[i].member != t[j].member;
      } else if i < k {
        assert r[i] == t[i] && r[j] == t[j - 1] && t[i].member != t[j - 1].member;
      } else {
        assert r[i] == t[i - 1] && r[j] == t[j - 1] && t[i - 1].member != t[j - 1].member;
      }
    }
  }

  /**
   * ZADD keeps the set a sorted set; afterwards `m` is present with exactly the
   * given score and every other member keeps its entry.
   */
  lemma ZAddSpec(s: seq<Entry>, score: int, m: Message)
    requires IsZSet(s)
    ensures IsZSet(ZAdd(s, score, m))
    ensures Entry(score, m) in ZAdd(s, score, m)
    ensures forall e :: e in ZAdd(s, score, m) <==> e == Entry(score, m) || (e in s && e.member != m)
    ensures |ZAdd(s, score, m)| == if HasMember(s, m) then |s| else |s| + 1
  {
    ZRemSpec(s, m);
    InsertSpec(ZRem(s, m), Entry(score, m));
  }

  /** Trimming from rank 0 to rank -(cap + 1) keeps exactly the `cap` highest-ranked entries. */
  lemma TrimKeepsHighest(s: seq<Entry>, cap: nat)
    requires cap >= 1
    ensures ZRemRangeByRank(s, 0, -(cap + 1)) == s[|s| - (if |s| < cap then |s| else cap)..]
  {
    var w := RankWindow(|s|, 0, -(cap + 1));
    if |s| <= cap {
      assert w == (0, 0);
      assert s[..0] + s[0..] == s;
    } else {
      assert w == (0, |s| - cap);
      assert s[..0] + s[|s| - cap..] == s[|s| - cap..];
    }
  }

  /** Number of entries ZREVRANGE 0 (limit - 1) yields on `n` entries. */
  function RecentCount(n: nat, limit: int): (c: nat)
    ensures c <= n
    ensures limit >= 1 ==> c == if limit < n then limit else n
    ensures limit <= 0 ==> c == if n + limit < 0 then 0 else n + limit
  {
    RankWindow(n, 0, limit - 1).1
  }

  /**
   * ZREVRANGE 0 (limit - 1) read back to front is the ascending run of the
   * RecentCount highest-scored entries.
   */
  lemma RevRangeIsNewestSuffix(s: seq<Entry>, limit: int)
    ensures Reverse(ZRevRange(s, 0, limit - 1)) == s[|s| - RecentCount(|s|, limit)..]
  {
    var c := RecentCount(|s|, limit);
    var r := ZRevRange(s, 0, limit - 1);
    assert |r| == c;
    forall i | 0 <= i < c ensures Reverse(r)[i] == s[|s| - c + i] {
      assert Reverse(r)[i] == r[c - 1 - i] == Reverse(s)[c - 1 - i];
    }
  }

  /**
   * ZREVRANGEBYSCORE max -inf LIMIT 0 count, read back to front: the `c` highest
   * entries among those scored at most `max`, ascending, where `c` is `count`
   * capped by how many such entries there are.
   */
  lemma RevRangeByScoreIsNewestBelow(s: seq<Entry>, max: int, count: nat)
    ensures var k := UpperBound(s, max);
            var c := if count < k then count else k;
            Reverse(ZRevRangeByScore(s, max, count)) == s[k - c..k]
  {
    var k := UpperBound(s, max);
    var c := if count < k then count else k;
    var r := ZRevRangeByScore(s, max, count);
    assert |r| == c;
    forall i | 0 <= i < c ensures Reverse(r)[i] == s[k - c + i] {
      assert Reverse(r)[i] == r[c - 1 - i] == Reverse(s[..k])[c - 1 - i];
    }
  }

  /** In a sorted set, an entry scored at most `max` lies before UpperBound. */
  lemma BelowUpperBound(s: seq<Entry>, max: int, i: nat)
    requires Sorted(s) && i < |s| && s[i].score <= max
    ensures i < UpperBound(s, max)
  {
  }

  /** In a sorted set, the entries scored at most `max` are exactly the first UpperBound of them. */
  lemma UpperBoundSplits(s: seq<Entry>, max: int)
    requires Sorted(s)
    ensures forall i :: 0 <= i < |s| ==> (s[i].score <= max <==> i < UpperBound(s, max))
  {
    var k := UpperBound(s, max);
    forall i | k <= i < |s| ensures s[i].score > max {
      assert s[k].score <= s[i].score;
    }
  }

  /** An entry of a sorted set lies in a suffix of it or scores no higher than all of the suffix. */
  lemma SuffixKeepsOrOutranks(z: seq<Entry>, n: nat, e: Entry)
    requires Sorted(z) && n <= |z| && e in z
    ensures e in z[|z| - n..] || forall x :: x in z[|z| - n..] ==> x.score >= e.score
  {
    var p :| 0 <= p < |z| && z[p] == e;
    if p >= |z| - n {
      assert z[|z| - n..][p - (|z| - n)] == e;
    } else {
      forall x | x in z[|z| - n..] ensures x.score >= e.score {
        var j :| 0 <= j < n && z[|z| - n..][j] == x;
        assert x == z[|z| - n + j];
      }
    }
  }

  /** ZREMRANGEBYRANK keeps the set a sorted set. */
  lemma RemRangeKeepsZSet(s: seq<Entry>, start: int, stop: int)
    requires IsZSet(s)
    ensures IsZSet(ZRemRangeByRank(s, start, stop))
  {
    var w := RankWindow(|s|, start, stop);
    var r := ZRemRangeByRank(s, start, stop);
    assert forall k :: 0 <= k < |r| ==> r[k] == s[if k < w.0 then k else k + (w.1 - w.0)];
  }
}

/**
 * The bookkeeping of StringCache (string_cache.hpp): a bounded list of
 * rendered strings keyed by (text, clear colour, text colour), each with a
 * usage counter, evicted by sorting on the counter and truncating. The
 * rendered bitmaps themselves (GDI) are not modelled.
 */
module StringCache {
  import opened CanvasDrawing

  const CACHE_MAX_SIZE: nat := 512
  const CACHE_CLEAR_SIZE: nat := 256

  /** What ColoredString::operator== compares: the text and the two colour values. */
  datatype Key = Key(str: string, clearColor: Color, stringColor: Color)

  /** A cached string: its key and its uint32 usage counter. */
  datatype Entry = Entry(key: Key, usageCounter: nat)

  /** A uint32 increment: wraps to 0 after 2^32 - 1. */
  function Inc32(x: nat): (r: nat)
    ensures r < 0x1_0000_0000
    ensures x < 0x1_0000_0000 - 1 ==> r == x + 1
  {
    (x + 1) % 0x1_0000_0000
  }

  /** Whether some entry has the key. */
  predicate HasKey(c: seq<Entry>, key: Key) {
    exists i | 0 <= i < |c| :: c[i].key == key
  }

  /** No two entries share a key. */
  predicate NoDuplicateKeys(c: seq<Entry>) {
    forall i, j | 0 <= i < j < |c| :: c[i].key != c[j].key
  }

  /** std::find with operator==: the first entry with the key, or |c| when there is none. */
  function IndexOf(c: seq<Entry>, key: Key): (i: nat)
    ensures i <= |c|
    ensures i < |c| ==> c[i].key == key
    ensures forall j | 0 <= j < i :: c[j].key != key
  {
    if |c| == 0 then 0
    else if c[0].key == key then 0
    else 1 + IndexOf(c[1..], key)
  }

  /** The entries are in non-increasing order of usage counter. */
  predicate MostUsedFirst(c: seq<Entry>) {
    forall i, j | 0 <= i < j < |c| :: c[i].usageCounter >= c[j].usageCounter
  }

  /** Insert e before the first entry used no more often than e. */
  function InsertByUsage(e: Entry, s: seq<Entry>): (r: seq<Entry>)
    requires MostUsedFirst(s)
    ensures MostUsedFirst(r)
    ensures multiset(r) == multiset(s) + multiset{e}
    ensures |r| == |s| + 1 && (r[0] == e || (|s| > 0 && r[0] == s[0]))
  {
    if |s| == 0 || e.usageCounter >= s[0].usageCounter then
      [e] + s
    else
      var rest := InsertByUsage(e, s[1..]);
      assert s == [s[0]] + s[1..];
      [s[0]] + rest
  }

  /**
   * The order std::sort leaves with the comparator lhs.usageCounter >
   * rhs.usageCounter, fixed here by insertion (std::sort leaves the order of
   * equal counters unspecified; nothing below depends on it).
   */
  function SortByUsage(c: seq<Entry>): (r: seq<Entry>)
    ensures MostUsedFirst(r)
    ensures multiset(r) == multiset(c) && |r| == |c|
  {
    if |c| == 0 then []
    else
      assert c == [c[0]] + c[1..];
      InsertByUsage(c[0], SortByUsage(c[1..]))
  }

  /** shrink: from CACHE_MAX_SIZE entries on, keep the CACHE_CLEAR_SIZE most used. */
  function ShrinkCache(c: seq<Entry>): seq<Entry> {
    if |c| >= CACHE_MAX_SIZE then SortByUsage(c)[..CACHE_CLEAR_SIZE] else c
  }

  /**
   * draw for a non-empty string: shrink, look the key up, append a new entry
   * with counter 0 on a miss, then increment the used entry's counter.
   */
  function DrawCache(c: seq<Entry>, key: Key): seq<Entry> {
    var s := ShrinkCache(c);
    var i := IndexOf(s, key);
    if i < |s| then s[i := s[i].(usageCounter := Inc32(s[i].usageCounter))]
    else s + [Entry(key, Inc32(0))]
  }

  /** The cache of one StringCache; the device context, font and bitmaps are not modelled. */
  class StringCache {
    var cache: seq<Entry>

    /** The invariant the cache keeps: distinct keys and at most CACHE_MAX_SIZE entries. */
    ghost predicate Valid()
      reads this
    {
      NoDuplicateKeys(cache) && |cache| <= CACHE_MAX_SIZE
    }

    constructor ()
      ensures cache == [] && Valid()
    {
      cache := [];
    }

    /** shrink. */
    method Shrink()
      modifies this
      ensures cache == ShrinkCache(old(cache))
    {
      if |cache| >= CACHE_MAX_SIZE {
        cache := SortByUsage(cache);
        cache := cache[..CACHE_CLEAR_SIZE];
      }
    }

    /** The bookkeeping of draw: an empty string changes nothing. */
    method Draw(s: string, clearColor: Color, stringColor: Color)
      modifies this
      ensures s == [] ==> cache == old(cache)
      ensures s != [] ==> cache == DrawCache(old(cache), Key(s, clearColor, stringColor))
      ensures old(Valid()) ==> Valid()
    {
      if |s| == 0 {
        return;
      }
      ghost var before := cache;
      Shrink();
      var key := Key(s, clearColor, stringColor);
      var i := IndexOf(cache, key);
      if i == |cache| {
        cache := cache + [Entry(key, 0)];
      }
      cache := cache[i := cache[i].(usageCounter := Inc32(cache[i].usageCounter))];
      if NoDuplicateKeys(before) && |before| <= CACHE_MAX_SIZE {
        DrawKeepsKeysDistinct(before, key);
        DrawStaysBounded(before, key);
      }
    }
  }

  /** Every entry of InsertByUsage or SortByUsage comes from its input. */
  lemma FromInput(r: seq<Entry>, c: seq<Entry>, k: nat)
    requires multiset(r) == multiset(c) && k < |r|
    ensures r[k] in c
  {
    assert r[k] in multiset(r);
  }

  /** Sorting by usage keeps keys distinct. */
  lemma {:induction false} SortKeepsKeysDistinct(c: seq<Entry>)
    requires NoDuplicateKeys(c)
    ensures NoDuplicateKeys(SortByUsage(c))
  {
    if |c| > 0 {
      assert c == [c[0]] + c[1..];
      var sorted := SortByUsage(c[1..]);
      SortKeepsKeysDistinct(c[1..]);
      forall i | 0 <= i < |sorted|
        ensures sorted[i].key != c[0].key
      {
        FromInput(sorted, c[1..], i);
        var m :| 0 <= m < |c[1..]| && c[1..][m] == sorted[i];
        assert c[m + 1] == sorted[i];
      }
      InsertKeepsKeysDistinct(c[0], sorted);
    }
  }

  /** Inserting an entry whose key is new keeps keys distinct. */
  lemma {:induction false} InsertKeepsKeysDistinct(e: Entry, s: seq<Entry>)
    requires MostUsedFirst(s) && NoDuplicateKeys(s)
    requires forall i | 0 <= i < |s| :: s[i].key != e.key
    ensures NoDuplicateKeys(InsertByUsage(e, s))
  {
    var r := InsertByUsage(e, s);
    if |s| == 0 || e.usageCounter >= s[0].usageCounter {
      assert r == [e] + s;
    } else {
      var rest := InsertByUsage(e, s[1..]);
      InsertKeepsKeysDistinct(e, s[1..]);
      assert r == [s[0]] + rest;
      forall j | 0 <= j < |rest|
        ensures s[0].key != rest[j].key
      {
        assert rest[j] in multiset(rest);
        if rest[j] != e {
          assert rest[j] in multiset(s[1..]);
          var m :| 0 <= m < |s[1..]| && s[1..][m] == rest[j];
          assert s[m + 1] == rest[j];
        }
      }
    }
  }

  /**
   * shrink on a cache of CACHE_MAX_SIZE or more entries leaves exactly
   * CACHE_CLEAR_SIZE of them, taken from the cache, and each kept entry is
   * used at least as often as each dropped one; a smaller cache is left alone.
   */
  lemma ShrinkKeepsMostUsed(c: seq<Entry>)
    ensures |c| < CACHE_MAX_SIZE ==> ShrinkCache(c) == c
    ensures |c| >= CACHE_MAX_SIZE ==> |ShrinkCache(c)| == CACHE_CLEAR_SIZE
    ensures multiset(ShrinkCache(c)) <= multiset(c)
    ensures forall kept, dropped | kept in multiset(ShrinkCache(c)) && dropped in multiset(c) - multiset(ShrinkCache(c))
      :: kept.usageCounter >= dropped.usageCounter
  {
    if |c| >= CACHE_MAX_SIZE {
      var r := SortByUsage(c);
      var kept, rest := r[..CACHE_CLEAR_SIZE], r[CACHE_CLEAR_SIZE..];
      assert r == kept + rest;
      assert multiset(c) == multiset(kept) + multiset(rest);
      forall x: Entry, y: Entry | x in multiset(kept) && y in multiset(c) - multiset(kept)
        ensures x.usageCounter >= y.usageCounter
      {
        var a :| 0 <= a < |kept| && kept[a] == x;
        assert y in multiset(rest);
        var b :| 0 <= b < |rest| && rest[b] == y;
        assert r[a] == x && r[CACHE_CLEAR_SIZE + b] == y;
      }
    }
  }

  /** shrink keeps keys distinct. */
  lemma ShrinkKeepsKeysDistinct(c: seq<Entry>)
    requires NoDuplicateKeys(c)
    ensures NoDuplicateKeys(ShrinkCache(c))
  {
    if |c| >= CACHE_MAX_SIZE {
      SortKeepsKeysDistinct(c);
    }
  }

  /**
   * A hit changes only the counter of the entry with the key, by one (as a
   * uint32); a miss appends exactly one entry, with counter 1. Both after
   * the shrink that draw does first.
   */
  lemma DrawHitOrMiss(c: seq<Entry>, key: Key)
    ensures var s, r := ShrinkCache(c), DrawCache(c, key);
      if HasKey(s, key) then
        |r| == |s| && exists i | 0 <= i < |s| :: (s[i].key == key
          && r[i] == Entry(key, Inc32(s[i].usageCounter))
          && forall j | 0 <= j < |s| && j != i :: r[j] == s[j])
      else
        r == s + [Entry(key, 1)]
  {
    var s := ShrinkCache(c);
    var i := IndexOf(s, key);
    if i < |s| {
      assert s[i].key == key;
    }
  }

  /** draw keeps keys distinct. */
  lemma DrawKeepsKeysDistinct(c: seq<Entry>, key: Key)
    requires NoDuplicateKeys(c)
    ensures NoDuplicateKeys(DrawCache(c, key))
  {
    ShrinkKeepsKeysDistinct(c);
    var s := ShrinkCache(c);
    var i := IndexOf(s, key);
    var r := DrawCache(c, key);
    if i == |s| {
      forall a, b | 0 <= a < b < |r|
        ensures r[a].key != r[b].key
      {
        if b == |s| {
          assert r[a] == s[a];
        }
      }
    }
  }

  /** A cache of at most CACHE_MAX_SIZE entries has at most CACHE_MAX_SIZE after draw. */
  lemma DrawStaysBounded(c: seq<Entry>, key: Key)
    requires |c| <= CACHE_MAX_SIZE
    ensures |DrawCache(c, key)| <= CACHE_MAX_SIZE
  {
  }
}

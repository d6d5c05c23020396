/**
 * The translation cache of lib/translations/cache.ts: a store from cache key
 * to entry that remembers insertion order, forgets entries lazily 24 hours
 * after they were stored, and holds at most 1000 entries by dropping the key
 * that comes first in insertion order.
 *
 * The state is the key order plus the entry map (together they are the
 * JavaScript `Map`). The clock is the explicit argument `now`, in
 * milliseconds. The pure functions Fetch, AfterGet, AfterSet and Cleared say
 * what each operation does to such a state; class TranslationCache performs
 * the operations in place and is proved to agree with them.
 */
module Cache {
  import opened Wrappers
  import opened Nested
  import opened Types

  /** Entries older than this many milliseconds are expired (24 hours). */
  const CACHE_EXPIRY: nat := 24 * 60 * 60 * 1000

  /** The size at which `set` starts evicting. */
  const MAX_CACHE_SIZE: nat := 1000

  /** No element occurs twice. */
  predicate Distinct<T(==)>(s: seq<T>)
  {
    forall i, j :: 0 <= i < j < |s| ==> s[i] != s[j]
  }

  /** A sequence without repetitions has as many elements as its set. */
  lemma {:induction false} DistinctCardinality<T>(s: seq<T>)
    requires Distinct(s)
    ensures |set x | x in s| == |s|
  {
    if s != [] {
      assert Distinct(s[1..]) by {
        forall i, j | 0 <= i < j < |s[1..]| ensures s[1..][i] != s[1..][j] {
          assert s[1..][i] == s[i + 1] && s[1..][j] == s[j + 1];
        }
      }
      DistinctCardinality(s[1..]);
      assert s[0] !in s[1..] by {
        forall k | 0 <= k < |s[1..]| ensures s[1..][k] != s[0] {
          assert s[1..][k] == s[k + 1];
        }
      }
      assert (set x | x in s) == {s[0]} + (set x | x in s[1..]);
    }
  }

  /** The position of `x` in `s`: its first occurrence. */
  function IndexOf(s: seq<string>, x: string): (i: nat)
    requires x in s
    ensures i < |s| && s[i] == x && x !in s[..i]
  {
    if s[0] == x then 0
    else
      var j := IndexOf(s[1..], x);
      assert s[..j + 1] == [s[0]] + s[1..][..j];
      j + 1
  }

  /** The tail of a sequence without repetitions has none, and lacks the head. */
  lemma DistinctTail<T>(s: seq<T>)
    requires Distinct(s) && s != []
    ensures Distinct(s[1..]) && s[0] !in s[1..]
  {
    forall i, j | 0 <= i < j < |s[1..]| ensures s[1..][i] != s[1..][j] {
      assert s[1..][i] == s[i + 1] && s[1..][j] == s[j + 1];
    }
    forall k | 0 <= k < |s[1..]| ensures s[1..][k] != s[0] {
      assert s[1..][k] == s[k + 1];
    }
  }

  /** Prepending a new element keeps a sequence free of repetitions. */
  lemma DistinctCons<T>(a: T, s: seq<T>)
    requires Distinct(s) && a !in s
    ensures Distinct([a] + s)
  {
    forall i, j | 0 <= i < j < |[a] + s| ensures ([a] + s)[i] != ([a] + s)[j] {
      assert ([a] + s)[j] == s[j - 1];
      if i > 0 {
        assert ([a] + s)[i] == s[i - 1];
      }
    }
  }

  /** Appending a new element keeps a sequence free of repetitions. */
  lemma DistinctSnoc<T>(s: seq<T>, a: T)
    requires Distinct(s) && a !in s
    ensures Distinct(s + [a])
  {
    forall i, j | 0 <= i < j < |s + [a]| ensures (s + [a])[i] != (s + [a])[j] {
      assert (s + [a])[i] == s[i];
      if j < |s| {
        assert (s + [a])[j] == s[j];
      }
    }
  }

  /** `s` with every occurrence of `x` removed and the order of the others kept. */
  function Without(s: seq<string>, x: string): (r: seq<string>)
    ensures forall y :: y in r <==> y in s && y != x
    ensures x !in s ==> r == s
  {
    if s == [] then []
    else if s[0] == x then Without(s[1..], x)
    else [s[0]] + Without(s[1..], x)
  }

  /** Removing a key from a sequence without repetitions leaves one without repetitions. */
  lemma {:induction false} WithoutDistinct(s: seq<string>, x: string)
    requires Distinct(s)
    ensures Distinct(Without(s, x))
  {
    if s != [] {
      DistinctTail(s);
      WithoutDistinct(s[1..], x);
      if s[0] != x {
        DistinctCons(s[0], Without(s[1..], x));
      }
    }
  }

  /** In a sequence without repetitions, removing `x` cuts out exactly its one position. */
  lemma {:induction false} WithoutAt(s: seq<string>, x: string)
    requires Distinct(s) && x in s
    ensures Without(s, x) == s[..IndexOf(s, x)] + s[IndexOf(s, x) + 1..]
  {
    DistinctTail(s);
    if s[0] == x {
      assert Without(s[1..], x) == s[1..];
    } else {
      var j := IndexOf(s[1..], x);
      WithoutAt(s[1..], x);
      assert IndexOf(s, x) == j + 1;
      assert s[..j + 1] == [s[0]] + s[1..][..j];
      assert s[j + 2..] == s[1..][j + 1..];
    }
  }

  /** The cache's state: keys in insertion order, and the entry of each key. */
  datatype CacheState = CacheState(order: seq<string>, entries: map<string, CacheEntry>)

  /** The freshly constructed (or cleared) cache. */
  const Empty: CacheState := CacheState([], map[])

  /** The order lists each stored key exactly once. */
  ghost predicate WellFormed(s: CacheState)
  {
    Distinct(s.order) && (forall k :: k in s.entries <==> k in s.order)
  }

  /** The map's size is the length of the key order. */
  lemma SizeAgrees(s: CacheState)
    requires WellFormed(s)
    ensures |s.entries| == |s.order|
  {
    DistinctCardinality(s.order);
    assert s.entries.Keys == set k | k in s.order;
  }

  /** An entry is expired when strictly more than CACHE_EXPIRY ms have passed. */
  predicate Expired(e: CacheEntry, now: nat)
  {
    now - e.timestamp > CACHE_EXPIRY
  }

  /** What `get(key)` returns at time `now`. */
  function Fetch(s: CacheState, key: string, now: nat): (r: Option<Node>)
    ensures r.Some? <==> key in s.entries && !Expired(s.entries[key], now)
    ensures r.Some? ==> r.value == s.entries[key].text
  {
    if key !in s.entries then None
    else if Expired(s.entries[key], now) then None
    else Some(s.entries[key].text)
  }

  /** The state after `get(key)` at time `now`: an expired entry is deleted. */
  function AfterGet(s: CacheState, key: string, now: nat): (t: CacheState)
    requires WellFormed(s)
    ensures WellFormed(t)
    ensures |t.entries| <= |s.entries|
  {
    if key in s.entries && Expired(s.entries[key], now) then
      WithoutDistinct(s.order, key);
      var t := CacheState(Without(s.order, key), s.entries - {key});
      SizeAgrees(s);
      SizeAgrees(t);
      t
    else s
  }

  /** Dropping the key that comes first in insertion order. */
  function Evict(s: CacheState): (t: CacheState)
    requires WellFormed(s) && s.order != []
    ensures WellFormed(t)
    ensures t.order == s.order[1..] && t.entries.Keys == s.entries.Keys - {s.order[0]}
    ensures forall k :: k in t.entries ==> t.entries[k] == s.entries[k]
    ensures |t.entries| == |s.entries| - 1
  {
    var t := CacheState(s.order[1..], s.entries - {s.order[0]});
    assert forall k :: k in t.order <==> k in s.order && k != s.order[0] by {
      forall k ensures k in t.order <==> k in s.order && k != s.order[0] {
        if k in s.order && k != s.order[0] {
          var i :| 0 <= i < |s.order| && s.order[i] == k;
          assert t.order[i - 1] == k;
        }
        if k in t.order {
          var i :| 0 <= i < |t.order| && t.order[i] == k;
          assert s.order[i + 1] == k;
        }
      }
    }
    DistinctTail(s.order);
    SizeAgrees(s);
    SizeAgrees(t);
    t
  }

  /**
   * The state after `set(key, text, provider)` at time `now`: when the map
   * holds MAX_CACHE_SIZE or more entries the first key is dropped (whatever
   * `key` is), then `key` is stored; a key already present keeps its place.
   */
  function AfterSet(s: CacheState, key: string, text: Node, provider: Provider, now: nat): (t: CacheState)
    requires WellFormed(s)
    ensures WellFormed(t)
    ensures key in t.entries && t.entries[key] == CacheEntry(text, now, provider)
    ensures forall k :: k in t.entries && k != key ==> k in s.entries && t.entries[k] == s.entries[k]
  {
    SizeAgrees(s);
    var base := if |s.entries| >= MAX_CACHE_SIZE then Evict(s) else s;
    if key in base.entries then
      CacheState(base.order, base.entries[key := CacheEntry(text, now, provider)])
    else
      DistinctSnoc(base.order, key);
      CacheState(base.order + [key], base.entries[key := CacheEntry(text, now, provider)])
  }

  /** `set` never takes a cache that holds at most MAX_CACHE_SIZE entries beyond that size. */
  lemma SetKeepsBound(s: CacheState, key: string, text: Node, provider: Provider, now: nat)
    requires WellFormed(s) && |s.entries| <= MAX_CACHE_SIZE
    ensures |AfterSet(s, key, text, provider, now).entries| <= MAX_CACHE_SIZE
  {
    var t := AfterSet(s, key, text, provider, now);
    SizeAgrees(s);
    SizeAgrees(t);
    if |s.entries| >= MAX_CACHE_SIZE {
      SizeAgrees(Evict(s));
    }
  }

  /** The state after `clear()`. */
  function Cleared(s: CacheState): (t: CacheState)
    ensures t.entries == map[] && t.order == []
  {
    Empty
  }

  /** `get` of an absent key returns None and leaves contents and order alone. */
  lemma GetAbsent(s: CacheState, key: string, now: nat)
    requires WellFormed(s) && key !in s.entries
    ensures Fetch(s, key, now) == None && AfterGet(s, key, now) == s
  {
  }

  /** `get` of an expired entry returns None and deletes that key and nothing else. */
  lemma GetExpired(s: CacheState, key: string, now: nat)
    requires WellFormed(s) && key in s.entries && now - s.entries[key].timestamp > CACHE_EXPIRY
    ensures Fetch(s, key, now) == None
    ensures AfterGet(s, key, now).entries.Keys == s.entries.Keys - {key}
    ensures forall k :: k in AfterGet(s, key, now).entries ==> AfterGet(s, key, now).entries[k] == s.entries[k]
    ensures AfterGet(s, key, now).order == s.order[..IndexOf(s.order, key)] + s.order[IndexOf(s.order, key) + 1..]
    ensures |AfterGet(s, key, now).entries| == |s.entries| - 1
  {
    WithoutAt(s.order, key);
  }

  /** `get` of an entry that is not expired returns its value and changes nothing. */
  lemma GetFresh(s: CacheState, key: string, now: nat)
    requires WellFormed(s) && key in s.entries && now - s.entries[key].timestamp <= CACHE_EXPIRY
    ensures Fetch(s, key, now) == Some(s.entries[key].text) && AfterGet(s, key, now) == s
  {
  }

  /** Expiry is strict: an entry is still served exactly 24 hours after it was stored, not 1 ms later. */
  lemma ExpiryBoundary(s: CacheState, key: string)
    requires WellFormed(s) && key in s.entries
    ensures Fetch(s, key, s.entries[key].timestamp + CACHE_EXPIRY) == Some(s.entries[key].text)
    ensures Fetch(s, key, s.entries[key].timestamp + CACHE_EXPIRY + 1) == None
  {
  }

  /**
   * `set` on a full cache drops exactly the first key in insertion order,
   * also when `key` is already stored; every other entry stays as it was.
   */
  lemma SetWhenFull(s: CacheState, key: string, text: Node, provider: Provider, now: nat)
    requires WellFormed(s) && |s.order| >= MAX_CACHE_SIZE
    ensures AfterSet(s, key, text, provider, now).order ==
      if key in s.order[1..] then s.order[1..] else s.order[1..] + [key]
    ensures forall k :: k in s.entries && k != s.order[0] && k != key ==>
      k in AfterSet(s, key, text, provider, now).entries &&
      AfterSet(s, key, text, provider, now).entries[k] == s.entries[k]
    ensures key != s.order[0] ==> s.order[0] !in AfterSet(s, key, text, provider, now).entries
  {
    SizeAgrees(s);
    DistinctTail(s.order);
    var e := Evict(s);
    assert key in e.entries <==> key in s.order[1..];
    forall k | k in s.entries && k != s.order[0]
      ensures k in e.entries
    {
      var i :| 0 <= i < |s.order| && s.order[i] == k;
      assert s.order[1..][i - 1] == k;
    }
  }

  /** Updating the first key of a full cache deletes it and re-appends it at the end. */
  lemma SetFullOnOldest(s: CacheState, text: Node, provider: Provider, now: nat)
    requires WellFormed(s) && |s.order| >= MAX_CACHE_SIZE
    ensures AfterSet(s, s.order[0], text, provider, now).order == s.order[1..] + [s.order[0]]
    ensures |AfterSet(s, s.order[0], text, provider, now).entries| == |s.entries|
  {
    SetWhenFull(s, s.order[0], text, provider, now);
    DistinctTail(s.order);
    SizeAgrees(s);
    SizeAgrees(AfterSet(s, s.order[0], text, provider, now));
  }

  /** Updating any other stored key of a full cache still evicts, so the size drops by one. */
  lemma SetFullOnOther(s: CacheState, key: string, text: Node, provider: Provider, now: nat)
    requires WellFormed(s) && |s.order| >= MAX_CACHE_SIZE && key in s.order[1..]
    ensures AfterSet(s, key, text, provider, now).order == s.order[1..]
    ensures |AfterSet(s, key, text, provider, now).entries| == |s.entries| - 1
  {
    SetWhenFull(s, key, text, provider, now);
    SizeAgrees(s);
    SizeAgrees(AfterSet(s, key, text, provider, now));
  }

  /**
   * Below the limit nothing is evicted: a new key is appended at the end, a
   * stored key keeps its position, and all other entries are unchanged.
   */
  lemma SetBelowLimit(s: CacheState, key: string, text: Node, provider: Provider, now: nat)
    requires WellFormed(s) && |s.order| < MAX_CACHE_SIZE
    ensures AfterSet(s, key, text, provider, now).order == if key in s.order then s.order else s.order + [key]
    ensures forall k :: k in s.entries && k != key ==>
      k in AfterSet(s, key, text, provider, now).entries &&
      AfterSet(s, key, text, provider, now).entries[k] == s.entries[k]
  {
    SizeAgrees(s);
  }

  /** Reading a key right after storing it gives back the stored value and changes nothing. */
  lemma SetThenGet(s: CacheState, key: string, text: Node, provider: Provider, now: nat)
    requires WellFormed(s)
    ensures Fetch(AfterSet(s, key, text, provider, now), key, now) == Some(text)
    ensures AfterGet(AfterSet(s, key, text, provider, now), key, now) == AfterSet(s, key, text, provider, now)
  {
  }

  /** After `clear` the cache is empty and every key reads as absent. */
  lemma ClearThenGet(s: CacheState, key: string, now: nat)
    ensures |Cleared(s).entries| == 0
    ensures Fetch(Cleared(s), key, now) == None
  {
  }

  /** One `set(key, text, provider)` call, made at time `now`. */
  datatype Write = Write(key: string, text: Node, provider: Provider, now: nat)

  /** The entry a write stores. */
  function EntryOf(w: Write): CacheEntry
  {
    CacheEntry(w.text, w.now, w.provider)
  }

  /** The keys of a run of writes, in the order they are written. */
  function WrittenKeys(ws: seq<Write>): (keys: seq<string>)
    ensures |keys| == |ws|
    ensures forall i :: 0 <= i < |ws| ==> keys[i] == ws[i].key
  {
    if ws == [] then [] else [ws[0].key] + WrittenKeys(ws[1..])
  }

  /** The last write of `k` in the run, if there is one: later writes take precedence. */
  function LastWrite(ws: seq<Write>, k: string): (w: Option<Write>)
    ensures w.None? <==> k !in WrittenKeys(ws)
    ensures w.Some? ==> w.value.key == k && w.value in ws
  {
    if ws == [] then None
    else
      assert WrittenKeys(ws) == [ws[0].key] + WrittenKeys(ws[1..]);
      match LastWrite(ws[1..], k)
      case Some(w) => Some(w)
      case None => if ws[0].key == k then Some(ws[0]) else None
  }

  /** With pairwise different keys, each write is the last write of its key. */
  lemma {:induction false} LastWriteOfDistinct(ws: seq<Write>, i: nat)
    requires Distinct(WrittenKeys(ws)) && i < |ws|
    ensures LastWrite(ws, ws[i].key) == Some(ws[i])
    decreases |ws|
  {
    assert WrittenKeys(ws) == [ws[0].key] + WrittenKeys(ws[1..]);
    DistinctTail(WrittenKeys(ws));
    if i == 0 {
      assert ws[0].key !in WrittenKeys(ws[1..]);
    } else {
      LastWriteOfDistinct(ws[1..], i - 1);
    }
  }

  /** The calls of `ws` made in turn on `s`. */
  function SetAll(s: CacheState, ws: seq<Write>): (t: CacheState)
    requires WellFormed(s)
    ensures WellFormed(t)
    decreases |ws|
  {
    if ws == [] then s
    else SetAll(AfterSet(s, ws[0].key, ws[0].text, ws[0].provider, ws[0].now), ws[1..])
  }

  /** The last MAX_CACHE_SIZE elements of `xs` (all of them if there are fewer). */
  function Newest(xs: seq<string>): seq<string>
  {
    if |xs| <= MAX_CACHE_SIZE then xs else xs[|xs| - MAX_CACHE_SIZE..]
  }

  /** A sequence without repetitions has none in any suffix. */
  lemma DistinctSuffix<T>(s: seq<T>, d: nat)
    requires Distinct(s) && d <= |s|
    ensures Distinct(s[d..])
  {
    forall i, j | 0 <= i < j < |s[d..]| ensures s[d..][i] != s[d..][j] {
      assert s[d..][i] == s[d + i] && s[d..][j] == s[d + j];
    }
  }

  /** A key that the run never writes is either evicted or keeps the entry it had. */
  lemma {:induction false} SetAllFrame(s: CacheState, ws: seq<Write>, k: string)
    requires WellFormed(s) && k !in WrittenKeys(ws) && k in SetAll(s, ws).entries
    ensures k in s.entries && SetAll(s, ws).entries[k] == s.entries[k]
    decreases |ws|
  {
    if ws != [] {
      var s1 := AfterSet(s, ws[0].key, ws[0].text, ws[0].provider, ws[0].now);
      assert WrittenKeys(ws) == [ws[0].key] + WrittenKeys(ws[1..]);
      SetAllFrame(s1, ws[1..], k);
    }
  }

  /** Dropping `d` elements from the front does not change the newest ones if at least MAX_CACHE_SIZE remain. */
  lemma NewestAfterDrop(xs: seq<string>, d: nat)
    requires d <= |xs| && (d == 0 || |xs| - d >= MAX_CACHE_SIZE)
    ensures Newest(xs[d..]) == Newest(xs)
  {
    if d > 0 && |xs| - d > MAX_CACHE_SIZE {
      assert xs[d..][|xs| - d - MAX_CACHE_SIZE..] == xs[|xs| - MAX_CACHE_SIZE..];
    }
  }

  /** In a concatenation without repetitions, the head of the second part is not in the first. */
  lemma FirstOfSecondIsNew(a: seq<string>, b: seq<string>)
    requires Distinct(a + b) && b != []
    ensures b[0] !in a
  {
    forall i | 0 <= i < |a| ensures a[i] != b[0] {
      assert (a + b)[i] == a[i] && (a + b)[|a|] == b[0];
    }
  }

  /** The key order after storing a new key: the first key goes when the cache is full. */
  function Shifted(order: seq<string>, key: string): seq<string>
  {
    if |order| >= MAX_CACHE_SIZE then order[1..] + [key] else order + [key]
  }

  /** `set` of a new key drops the first key only when the cache is full, and appends the new key. */
  lemma SetNewKey(s: CacheState, key: string, text: Node, provider: Provider, now: nat)
    requires WellFormed(s) && |s.order| <= MAX_CACHE_SIZE && key !in s.order
    ensures AfterSet(s, key, text, provider, now).order == Shifted(s.order, key)
  {
    if |s.order| >= MAX_CACHE_SIZE {
      SetWhenFull(s, key, text, provider, now);
    } else {
      SetBelowLimit(s, key, text, provider, now);
    }
  }

  /** One step of DistinctInsertsKeepNewest, on the key order alone. */
  lemma ShiftedWindow(order: seq<string>, keys: seq<string>)
    requires |order| <= MAX_CACHE_SIZE && Distinct(order + keys) && keys != []
    ensures |Shifted(order, keys[0])| <= MAX_CACHE_SIZE
    ensures Distinct(Shifted(order, keys[0]) + keys[1..])
    ensures Newest(Shifted(order, keys[0]) + keys[1..]) == Newest(order + keys)
  {
    var xs := order + keys;
    var d := if |order| >= MAX_CACHE_SIZE then 1 else 0;
    assert Shifted(order, keys[0]) + keys[1..] == xs[d..] by {
      if d == 1 {
        assert order[1..] + [keys[0]] + keys[1..] == (order + keys)[1..];
      } else {
        assert order + [keys[0]] + keys[1..] == order + keys;
      }
    }
    DistinctSuffix(xs, d);
    NewestAfterDrop(xs, d);
  }

  /**
   * Storing keys that are all new and pairwise different keeps exactly the
   * MAX_CACHE_SIZE most recently stored keys, in the order they were stored:
   * the cache behaves as a first-in first-out window.
   */
  lemma {:induction false} DistinctInsertsKeepNewest(s: CacheState, ws: seq<Write>)
    requires WellFormed(s) && |s.order| <= MAX_CACHE_SIZE && Distinct(s.order + WrittenKeys(ws))
    ensures SetAll(s, ws).order == Newest(s.order + WrittenKeys(ws))
    decreases |ws|
  {
    var keys := WrittenKeys(ws);
    if ws == [] {
      assert s.order + keys == s.order;
    } else {
      assert keys == [ws[0].key] + WrittenKeys(ws[1..]);
      assert keys[1..] == WrittenKeys(ws[1..]);
      FirstOfSecondIsNew(s.order, keys);
      SetNewKey(s, ws[0].key, ws[0].text, ws[0].provider, ws[0].now);
      ShiftedWindow(s.order, keys);
      var s1 := AfterSet(s, ws[0].key, ws[0].text, ws[0].provider, ws[0].now);
      DistinctInsertsKeepNewest(s1, ws[1..]);
    }
  }

  /** Every key the run writes that is still stored afterwards holds the entry of its last write. */
  lemma {:induction false} SetAllEntries(s: CacheState, ws: seq<Write>, k: string)
    requires WellFormed(s) && k in WrittenKeys(ws) && k in SetAll(s, ws).entries
    ensures SetAll(s, ws).entries[k] == EntryOf(LastWrite(ws, k).value)
    decreases |ws|
  {
    var s1 := AfterSet(s, ws[0].key, ws[0].text, ws[0].provider, ws[0].now);
    assert WrittenKeys(ws) == [ws[0].key] + WrittenKeys(ws[1..]);
    if k in WrittenKeys(ws[1..]) {
      SetAllEntries(s1, ws[1..], k);
    } else {
      SetAllFrame(s1, ws[1..], k);
    }
  }

  /** After MAX_CACHE_SIZE + 1 writes of different keys into an empty cache, the first key is gone from the order. */
  lemma OverflowOrder(s: CacheState, ws: seq<Write>)
    requires WellFormed(s) && s.order == []
    requires Distinct(WrittenKeys(ws)) && |ws| == MAX_CACHE_SIZE + 1
    ensures SetAll(s, ws).order == WrittenKeys(ws)[1..]
  {
    var keys := WrittenKeys(ws);
    assert s.order + keys == keys;
    DistinctInsertsKeepNewest(s, ws);
    assert Newest(keys) == keys[1..];
  }

  /** ... and each later key holds the entry its own write stored. */
  lemma OverflowKeepsLater(s: CacheState, ws: seq<Write>, i: nat)
    requires WellFormed(s) && s.order == []
    requires Distinct(WrittenKeys(ws)) && |ws| == MAX_CACHE_SIZE + 1 && 1 <= i < |ws|
    ensures ws[i].key in SetAll(s, ws).entries && SetAll(s, ws).entries[ws[i].key] == EntryOf(ws[i])
  {
    OverflowOrder(s, ws);
    assert ws[i].key == WrittenKeys(ws)[1..][i - 1];
    LastWriteOfDistinct(ws, i);
    SetAllEntries(s, ws, ws[i].key);
  }

  /**
   * Filling an empty cache with MAX_CACHE_SIZE + 1 writes of different keys
   * loses the first key only: it reads as absent at any time, while each
   * later key holds the entry its write stored.
   */
  lemma OverflowLosesFirst(s: CacheState, ws: seq<Write>, now: nat)
    requires WellFormed(s) && s.order == []
    requires Distinct(WrittenKeys(ws)) && |ws| == MAX_CACHE_SIZE + 1
    ensures SetAll(s, ws).order == WrittenKeys(ws)[1..]
    ensures Fetch(SetAll(s, ws), ws[0].key, now) == None
    ensures forall i :: 1 <= i < |ws| ==>
      ws[i].key in SetAll(s, ws).entries && SetAll(s, ws).entries[ws[i].key] == EntryOf(ws[i])
  {
    OverflowOrder(s, ws);
    DistinctTail(WrittenKeys(ws));
    assert ws[0].key == WrittenKeys(ws)[0];
    forall i | 1 <= i < |ws|
      ensures ws[i].key in SetAll(s, ws).entries && SetAll(s, ws).entries[ws[i].key] == EntryOf(ws[i])
    {
      OverflowKeepsLater(s, ws, i);
    }
  }

  /** The statistics snapshot returned by `getStats()`. */
  datatype Stats = Stats(size: nat, maxSize: nat)

  /** The in-place cache. */
  class TranslationCache {
    var order: seq<string>
    var entries: map<string, CacheEntry>

    /** The abstract value of this cache. */
    function State(): CacheState
      reads this
    {
      CacheState(order, entries)
    }

    ghost predicate Valid()
      reads this
    {
      WellFormed(State()) && |entries| <= MAX_CACHE_SIZE
    }

    constructor ()
      ensures Valid() && State() == Empty
    {
      order := [];
      entries := map[];
    }

    /** `get`: the stored value, or None when the key is absent or expired (then deleted). */
    method Get(key: string, now: nat) returns (text: Option<Node>)
      requires Valid()
      modifies this
      ensures Valid()
      ensures text == Fetch(old(State()), key, now)
      ensures State() == AfterGet(old(State()), key, now)
    {
      if key !in entries {
        return None;
      }
      var entry := entries[key];
      if now - entry.timestamp > CACHE_EXPIRY {
        WithoutDistinct(order, key);
        entries := entries - {key};
        order := Without(order, key);
        return None;
      }
      return Some(entry.text);
    }

    /** `set`: evict the first key when full, then store the new entry. */
    method Set(key: string, text: Node, provider: Provider, now: nat)
      requires Valid()
      modifies this
      ensures Valid()
      ensures State() == AfterSet(old(State()), key, text, provider, now)
    {
      if |entries| >= MAX_CACHE_SIZE {
        SizeAgrees(State());
        var oldest := order[0];
        entries := entries - {oldest};
        order := order[1..];
      }
      if key !in entries {
        order := order + [key];
      }
      entries := entries[key := CacheEntry(text, now, provider)];
      SetKeepsBound(old(State()), key, text, provider, now);
    }

    /** `clear`: drop every entry. */
    method Clear()
      requires Valid()
      modifies this
      ensures Valid()
      ensures State() == Cleared(old(State()))
    {
      order := [];
      entries := map[];
    }

    /** `getStats`: the current size and the fixed maximum, without changing anything. */
    method GetStats() returns (stats: Stats)
      requires Valid()
      ensures stats.size == |entries| == |order|
      ensures stats.maxSize == MAX_CACHE_SIZE
      ensures stats.size <= stats.maxSize
    {
      SizeAgrees(State());
      stats := Stats(|entries|, MAX_CACHE_SIZE);
    }
  }
}

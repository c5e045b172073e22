/** `TwoQueueCache` of hashicorp/golang-lru/2q.go: three LRUs updated in place. Each method is proved
    against the value-level operation of the same purpose, and keeps its invariant. */
module TwoQueueCache {
  import opened Common
  import opened Lru
  import opened CacheOps
  import TwoQueue

  class Cache<K(==), V> {
    const size: nat
    const recentSize: nat
    const recent: LRU<K, V>
    const frequent: LRU<K, V>
    const recentEvict: LRU<K, ()>

    ghost predicate Valid()
      reads this, recent, frequent, recentEvict
    {
      && recent != frequent && (recentEvict as object) != recent && (recentEvict as object) != frequent
      && recent.Valid() && frequent.Valid() && recentEvict.Valid()
      && recent.size == size && frequent.size == size
      && TwoQueue.Inv(Contents())
    }

    ghost function Contents(): (c: TwoQueue.Cache<K, V>)
      reads this, recent, frequent, recentEvict
    {
      TwoQueue.Cache(size, recentSize, recentEvict.size, recent.Contents(), frequent.Contents(), recentEvict.Contents())
    }

    constructor (size: nat, recentSize: nat, evictSize: nat)
      requires TwoQueue.Sizes(size, recentSize, evictSize)
      ensures Valid() && Contents() == TwoQueue.New(size, recentSize, evictSize)
      ensures fresh(recent) && fresh(frequent) && fresh(recentEvict)
    {
      this.size, this.recentSize := size, recentSize;
      recent := new LRU(size);
      frequent := new LRU(size);
      recentEvict := new LRU(evictSize);
    }

    method Get(key: K) returns (value: Option<V>)
      requires Valid()
      modifies recent, frequent
      ensures Valid() && Contents() == TwoQueue.Got(old(Contents()), key)
      ensures value == TwoQueue.Peek(old(Contents()), key)
    {
      hide TwoQueue.Inv, Sound, Added, Removed, Touched;
      ghost var c := Contents();
      ghost var m := TwoQueue.CachedAs(c);
      TwoQueue.GotKeeps(c, key, m);
      value := frequent.Get(key);
      if value.Some? { return; }
      if key in recent.items {
        value := Some(recent.items[key]);
        var _ := recent.Remove(key);
        var _ := frequent.Add(key, value.value);
      }
    }

    method Add(key: K, value: V)
      requires Valid()
      modifies recent, frequent, recentEvict
      ensures Valid() && Contents() == TwoQueue.Put(old(Contents()), key, value)
    {
      hide TwoQueue.Inv, Sound, Added, Removed, Dropped, TwoQueue.EnsuredSpace;
      ghost var c := Contents();
      ghost var m := TwoQueue.CachedAs(c);
      TwoQueue.PutKeeps(c, key, value, m);
      if key in frequent.items {
        var _ := frequent.Add(key, value);
        return;
      }
      if key in recent.items {
        var _ := recent.Remove(key);
        var _ := frequent.Add(key, value);
        return;
      }
      if key in recentEvict.items {
        EnsureSpace(true);
        var _ := recentEvict.Remove(key);
        var _ := frequent.Add(key, value);
        return;
      }
      EnsureSpace(false);
      var _ := recent.Add(key, value);
    }

    method EnsureSpace(evicted: bool)
      requires Valid()
      modifies recent, frequent, recentEvict
      ensures Valid() && Contents() == TwoQueue.EnsuredSpace(old(Contents()), evicted)
    {
      hide TwoQueue.Inv, Sound, Added, Dropped;
      ghost var c := Contents();
      ghost var m := TwoQueue.CachedAs(c);
      TwoQueue.EnsuredSpaceKeeps(c, evicted, m);
      var recentLen, freqLen := |recent.order|, |frequent.order|;
      if recentLen + freqLen < size { return; }
      if recentLen > 0 && (recentLen > recentSize || (recentLen == recentSize && !evicted)) {
        var k, _ := recent.RemoveOldest();
        var _ := recentEvict.Add(k.value, ());
        return;
      }
      var _, _ := frequent.RemoveOldest();
    }

    method Remove(key: K)
      requires Valid()
      modifies recent, frequent, recentEvict
      ensures Valid() && Contents() == TwoQueue.Deleted(old(Contents()), key)
    {
      hide TwoQueue.Inv, Sound, Removed;
      ghost var c := Contents();
      ghost var m := TwoQueue.CachedAs(c);
      TwoQueue.DeletedKeeps(c, key, m);
      RemovedAbsent(c.recent, key);
      RemovedAbsent(c.frequent, key);
      RemovedAbsent(c.recentEvict, key);
      var ok := frequent.Remove(key);
      if ok { return; }
      ok := recent.Remove(key);
      if ok { return; }
      ok := recentEvict.Remove(key);
    }

    method Purge()
      requires Valid()
      modifies recent, frequent, recentEvict
      ensures Valid() && Contents() == TwoQueue.Purged(old(Contents()))
    {
      recent.Purge();
      frequent.Purge();
      recentEvict.Purge();
    }

    /** Any one operation. */
    method Apply(op: Op<K, V>) returns (found: Option<V>)
      requires Valid()
      modifies recent, frequent, recentEvict
      ensures Valid() && Contents() == TwoQueue.Applied(old(Contents()), op)
      ensures found == if op.Get? then TwoQueue.Peek(old(Contents()), op.k) else None
    {
      hide TwoQueue.Inv, TwoQueue.Put, TwoQueue.Got, TwoQueue.Deleted, TwoQueue.Purged, TwoQueue.Peek;
      found := None;
      match op {
        case Add(k, v) => Add(k, v);
        case Get(k) => found := Get(k);
        case Remove(k) => Remove(k);
        case Purge => Purge();
      }
    }

    method Peek(key: K) returns (value: Option<V>)
      requires Valid()
      ensures value == TwoQueue.Peek(Contents(), key)
    {
      if key in frequent.items { return Some(frequent.items[key]); }
      if key in recent.items { return Some(recent.items[key]); }
      return None;
    }
  }

  /** A cache whose recent and ghost lists get the given shares of the size; there is none when size or
      ratios are out of range, or when the share of the ghost list is less than one entry. */
  method New2QParams<K(==), V>(size: int, recentRatio: real, ghostRatio: real) returns (c: Cache?<K, V>)
    ensures c != null <==>
      && size > 0 && 0.0 <= recentRatio <= 1.0 && 0.0 <= ghostRatio <= 1.0
      && Scaled(size, ghostRatio) >= 1.0
    ensures c != null ==> fresh(c) && c.Valid()
    ensures c != null ==>
      && TwoQueue.Sizes(size, Share(size, recentRatio), Share(size, ghostRatio))
      && c.Contents() == TwoQueue.New(size, Share(size, recentRatio), Share(size, ghostRatio))
  {
    hide Scaled;
    if size <= 0 { return null; }
    if recentRatio < 0.0 || recentRatio > 1.0 { return null; }
    if ghostRatio < 0.0 || ghostRatio > 1.0 { return null; }
    var recentSize, evictSize := Share(size, recentRatio), Share(size, ghostRatio);
    if evictSize <= 0 { return null; }
    c := new Cache<K, V>(size, recentSize, evictSize);
  }

  /** A share of the size: all of it only for the ratio one. */
  function Scaled(size: int, ratio: real): (x: real)
    requires size > 0 && 0.0 <= ratio <= 1.0
    ensures 0.0 <= x <= size as real && (x == size as real <==> ratio == 1.0)
  {
    var n := size as real;
    assert n - n * ratio == n * (1.0 - ratio);
    assert ratio < 1.0 ==> n * (1.0 - ratio) > 0.0;
    n * ratio
  }

  /** The whole entries in a share of the size. */
  function Share(size: int, ratio: real): (n: nat)
    requires size > 0 && 0.0 <= ratio <= 1.0
    ensures n as real <= Scaled(size, ratio) < n as real + 1.0
    ensures n <= size && (n == size <==> ratio == 1.0)
  {
    hide Scaled;
    Scaled(size, ratio).Floor
  }

  /** With a ratio for recent entries below one, as the default is, no run exceeds the size. */
  lemma RatioKeepsSize<K, V>(size: int, recentRatio: real, ghostRatio: real, ops: seq<Op<K, V>>)
    requires size > 0 && 0.0 <= recentRatio < 1.0 && 0.0 <= ghostRatio <= 1.0 && Scaled(size, ghostRatio) >= 1.0
    ensures TwoQueue.Sizes(size, Share(size, recentRatio), Share(size, ghostRatio))
    ensures TwoQueue.After(size, Share(size, recentRatio), Share(size, ghostRatio), ops).Len() <= size
  {
    hide Scaled, TwoQueue.After, TwoQueue.Inv;
    TwoQueue.RunInvariant(size, Share(size, recentRatio), Share(size, ghostRatio), ops);
  }

  /** Runs operations on a new cache: each lookup answers what the value-level cache holds at that
      point, and so, if it hits, the last value added for the key since it was last removed. */
  method Drive<K(==), V>(size: nat, recentSize: nat, evictSize: nat, ops: seq<Op<K, V>>) returns (found: seq<Option<V>>)
    requires TwoQueue.Sizes(size, recentSize, evictSize)
    ensures |found| == |ops|
    ensures forall i :: 0 <= i < |ops| ==>
      found[i] == (if ops[i].Get? then TwoQueue.Peek(TwoQueue.After(size, recentSize, evictSize, ops[..i]), ops[i].k) else None)
    ensures forall i :: 0 <= i < |ops| && found[i].Some? ==>
      ops[i].k in Latest(ops[..i]) && found[i].value == Latest(ops[..i])[ops[i].k]
  {
    hide TwoQueue.Inv, TwoQueue.Applied, TwoQueue.Peek, Latest;
    var cache := new Cache<K, V>(size, recentSize, evictSize);
    found := [];
    for i := 0 to |ops|
      invariant cache.Valid() && cache.Contents() == TwoQueue.After(size, recentSize, evictSize, ops[..i])
      invariant fresh(cache) && fresh(cache.recent) && fresh(cache.frequent) && fresh(cache.recentEvict)
      invariant |found| == i
      invariant forall j :: 0 <= j < i ==>
        found[j] == (if ops[j].Get? then TwoQueue.Peek(TwoQueue.After(size, recentSize, evictSize, ops[..j]), ops[j].k) else None)
    {
      assert ops[..i + 1][..i] == ops[..i];
      var answer := cache.Apply(ops[i]);
      found := found + [answer];
    }
    forall i | 0 <= i < |ops| && found[i].Some?
      ensures ops[i].k in Latest(ops[..i]) && found[i].value == Latest(ops[..i])[ops[i].k]
    {
      TwoQueue.HitsAreLatest(size, recentSize, evictSize, ops[..i], ops[i].k);
    }
  }
}

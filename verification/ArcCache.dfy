/** `ARCCache` of hashicorp/golang-lru/arc.go: four LRUs updated in place. Each method is proved
    against the value-level operation of the same purpose, and keeps its invariant. */
module ArcCache {
  import opened Common
  import opened Lru
  import Arc
  import CacheOps

  class ARCCache<K(==), V> {
    const size: nat
    var p: nat
    const t1: LRU<K, V>
    const b1: LRU<K, ()>
    const t2: LRU<K, V>
    const b2: LRU<K, ()>

    ghost predicate Shape()
      reads this, t1, t2, b1, b2
    {
      && t1 != t2 && b1 != b2 && (b1 as object) != t1 && (b1 as object) != t2 && (b2 as object) != t1 && (b2 as object) != t2
      && t1.Valid() && t2.Valid() && b1.Valid() && b2.Valid()
      && t1.size == size && t2.size == size && b1.size == size && b2.size == size
    }

    ghost predicate Valid()
      reads this, t1, t2, b1, b2
    {
      Shape() && Arc.Inv(Contents())
    }

    ghost function Contents(): (c: Arc.Cache<K, V>)
      reads this, t1, t2, b1, b2
    {
      Arc.Cache(size, p, t1.Contents(), t2.Contents(), b1.Contents(), b2.Contents())
    }

    constructor (size: nat)
      requires size > 0
      ensures Valid() && Contents() == Arc.New(size)
      ensures fresh(t1) && fresh(t2) && fresh(b1) && fresh(b2)
    {
      this.size, p := size, 0;
      b1 := new LRU(size);
      b2 := new LRU(size);
      t1 := new LRU(size);
      t2 := new LRU(size);
    }

    method Get(key: K) returns (value: Option<V>)
      requires Valid()
      modifies t1, t2
      ensures Valid() && Contents() == Arc.Got(old(Contents()), key)
      ensures value == Arc.Peek(old(Contents()), key)
    {
      hide Arc.Inv, Sound, Added, Removed, Touched;
      ghost var c := Contents();
      ghost var m := Arc.CachedAs(c);
      Arc.GotKeeps(c, key, m);
      if key in t1.items {
        value := Some(t1.items[key]);
        var _ := t1.Remove(key);
        var _ := t2.Add(key, value.value);
        return;
      }
      value := t2.Get(key);
    }

    method Add(key: K, value: V)
      requires Valid()
      modifies this, t1, t2, b1, b2
      ensures Valid() && Contents() == Arc.Put(old(Contents()), key, value)
    {
      hide Arc.Inv, Sound, Added, Removed, Dropped, Arc.Replaced;
      ghost var c := Contents();
      ghost var m := Arc.CachedAs(c);
      Arc.PutKeeps(c, key, value, m);
      if key in t1.items {
        var _ := t1.Remove(key);
        var _ := t2.Add(key, value);
        return;
      }
      if key in t2.items {
        var _ := t2.Add(key, value);
        return;
      }
      if key in b1.items {
        GrowP(key);
        MakeRoom(false);
        var _ := b1.Remove(key);
        var _ := t2.Add(key, value);
        return;
      }
      if key in b2.items {
        ShrinkP(key);
        MakeRoom(true);
        var _ := b2.Remove(key);
        var _ := t2.Add(key, value);
        return;
      }
      AddRecent(key, value);
    }

    /** Adds a key that is in none of the lists to the recent entries. */
    method AddRecent(key: K, value: V)
      requires Valid() && key !in t1.items && key !in t2.items && key !in b1.items && key !in b2.items
      modifies this, t1, t2, b1, b2
      ensures Valid() && Contents() == Arc.Put(old(Contents()), key, value)
    {
      hide Arc.Inv, Sound, Added, Removed, Dropped, Arc.Replaced;
      ghost var c := Contents();
      ghost var m := Arc.CachedAs(c);
      Arc.PutKeeps(c, key, value, m);
      MakeRoom(false);
      if |b1.order| > size - p {
        var _, _ := b1.RemoveOldest();
      }
      if |b2.order| > p {
        var _, _ := b2.RemoveOldest();
      }
      var _ := t1.Add(key, value);
    }

    /** T1 is too small: raises P by the ratio of the ghost lists. */
    method GrowP(key: K)
      requires Valid() && key in b1.items
      modifies this
      ensures |old(b1.order)| > 0 && Valid() && Contents() == Arc.GrownP(old(Contents()))
    {
      Arc.ListHas(size, b1.Contents(), key);
      var delta := 1;
      var b1Len, b2Len := |b1.order|, |b2.order|;
      if b2Len > b1Len {
        delta := b2Len / b1Len;
      }
      if p + delta >= size {
        p := size;
      } else {
        p := p + delta;
      }
    }

    /** T2 is too small: lowers P. */
    method ShrinkP(key: K)
      requires Valid() && key in b2.items
      modifies this
      ensures |old(b2.order)| > 0 && Valid() && Contents() == Arc.ShrunkP(old(Contents()))
    {
      Arc.ListHas(size, b2.Contents(), key);
      var delta := 1;
      var b1Len, b2Len := |b1.order|, |b2.order|;
      if b1Len > b2Len {
        delta := b1Len / b2Len;
      }
      if delta >= p {
        p := 0;
      } else {
        p := p - delta;
      }
    }

    method MakeRoom(b2ContainsKey: bool)
      requires Valid()
      modifies t1, t2, b1, b2
      ensures Valid() && Contents() == Arc.MadeRoom(old(Contents()), b2ContainsKey)
    {
      hide Arc.Inv, Arc.Replaced;
      if |t1.order| + |t2.order| >= size {
        Replace(b2ContainsKey);
      }
    }

    /** Evicts the oldest entry of T1 or T2, and remembers its key. */
    method Replace(b2ContainsKey: bool)
      requires Valid()
      modifies t1, t2, b1, b2
      ensures Valid() && Contents() == Arc.Replaced(old(Contents()), b2ContainsKey)
    {
      hide Arc.Inv, Sound, Added, Dropped;
      ghost var c := Contents();
      ghost var m := Arc.CachedAs(c);
      Arc.ReplacedKeeps(c, b2ContainsKey, m);
      var t1Len := |t1.order|;
      if t1Len > 0 && (t1Len > p || (t1Len == p && b2ContainsKey)) {
        var k, _ := t1.RemoveOldest();
        if k.Some? {
          var _ := b1.Add(k.value, ());
        }
      } else {
        NothingToDrop(c.t2);
        var k, _ := t2.RemoveOldest();
        if k.Some? {
          var _ := b2.Add(k.value, ());
        }
      }
    }

    method Remove(key: K)
      requires Valid()
      modifies t1, t2, b1, b2
      ensures Valid() && Contents() == Arc.Deleted(old(Contents()), key)
    {
      hide Arc.Inv, Sound, Removed;
      ghost var c := Contents();
      ghost var m := Arc.CachedAs(c);
      Arc.DeletedKeeps(c, key, m);
      RemovedAbsent(c.t1, key);
      RemovedAbsent(c.t2, key);
      RemovedAbsent(c.b1, key);
      RemovedAbsent(c.b2, key);
      var ok := t1.Remove(key);
      if ok { return; }
      ok := t2.Remove(key);
      if ok { return; }
      ok := b1.Remove(key);
      if ok { return; }
      ok := b2.Remove(key);
    }

    method Purge()
      requires Valid()
      modifies t1, t2, b1, b2
      ensures Valid() && Contents() == Arc.Purged(old(Contents()))
    {
      t1.Purge();
      t2.Purge();
      b1.Purge();
      b2.Purge();
    }

    /** Any one operation. */
    method Apply(op: CacheOps.Op<K, V>) returns (found: Option<V>)
      requires Valid()
      modifies this, t1, t2, b1, b2
      ensures Valid() && Contents() == Arc.Applied(old(Contents()), op)
      ensures found == if op.Get? then Arc.Peek(old(Contents()), op.k) else None
    {
      hide Arc.Inv, Arc.Put, Arc.Got, Arc.Deleted, Arc.Purged, Arc.Peek;
      found := None;
      match op {
        case Add(k, v) => Add(k, v);
        case Get(k) => found := Get(k);
        case Remove(k) => Remove(k);
        case Purge => Purge();
      }
    }

    method Peek(key: K) returns (value: Option<V>)
      requires Valid()
      ensures value == Arc.Peek(Contents(), key)
    {
      if key in t1.items { return Some(t1.items[key]); }
      if key in t2.items { return Some(t2.items[key]); }
      return None;
    }

    method Contains(key: K) returns (present: bool)
      requires Valid()
      ensures present <==> Arc.Peek(Contents(), key).Some?
    {
      present := key in t1.items || key in t2.items;
    }
  }

  /** A cache of the given size; there is none of size zero or less. */
  method NewARC<K(==), V>(size: int) returns (c: ARCCache?<K, V>)
    ensures c == null <==> size <= 0
    ensures c != null ==> fresh(c) && c.Valid() && c.Contents() == Arc.New(size)
  {
    if size <= 0 { return null; }
    c := new ARCCache<K, V>(size);
  }

  lemma NothingToDrop<K, V>(l: Entries<K, V>)
    ensures l.order == [] ==> Dropped(l) == l
  {}

  /** Runs operations on a new cache: each lookup answers what the value-level cache holds at that
      point, and so, if it hits, the last value added for the key since it was last removed. */
  method Drive<K(==), V>(size: nat, ops: seq<CacheOps.Op<K, V>>) returns (found: seq<Option<V>>)
    requires size > 0
    ensures |found| == |ops|
    ensures forall i :: 0 <= i < |ops| ==>
      found[i] == (if ops[i].Get? then Arc.Peek(Arc.After(size, ops[..i]), ops[i].k) else None)
    ensures forall i :: 0 <= i < |ops| && found[i].Some? ==>
      ops[i].k in CacheOps.Latest(ops[..i]) && found[i].value == CacheOps.Latest(ops[..i])[ops[i].k]
  {
    hide Arc.Inv, Arc.Applied, Arc.Peek, CacheOps.Latest;
    var cache := new ARCCache<K, V>(size);
    found := [];
    for i := 0 to |ops|
      invariant cache.Valid() && cache.Contents() == Arc.After(size, ops[..i])
      invariant fresh(cache) && fresh(cache.t1) && fresh(cache.t2) && fresh(cache.b1) && fresh(cache.b2)
      invariant |found| == i
      invariant forall j :: 0 <= j < i ==>
        found[j] == (if ops[j].Get? then Arc.Peek(Arc.After(size, ops[..j]), ops[j].k) else None)
    {
      assert ops[..i + 1][..i] == ops[..i];
      var answer := cache.Apply(ops[i]);
      found := found + [answer];
    }
    forall i | 0 <= i < |ops| && found[i].Some?
      ensures ops[i].k in CacheOps.Latest(ops[..i]) && found[i].value == CacheOps.Latest(ops[..i])[ops[i].k]
    {
      Arc.HitsAreLatest(size, ops[..i], ops[i].k);
    }
  }
}

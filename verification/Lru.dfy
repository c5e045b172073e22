/** The fixed-size LRU of hashicorp/golang-lru/simplelru/lru.go, on which the ARC and 2Q caches are
    built: a recency list (newest first) and a table of values. */
module Lru {
  import opened Common

  /** The value of an LRU. */
  datatype Entries<K, V> = Entries(order: seq<K>, items: map<K, V>)

  /** List and table agree, and the list has no duplicates. */
  ghost predicate Sound<K, V>(l: Entries<K, V>) {
    && Distinct(l.order)
    && (forall k :: k in l.order ==> k in l.items)
    && (forall k :: k in l.items ==> k in l.order)
  }

  /** A sound list within its capacity. */
  ghost predicate ListOk<K, V>(size: nat, l: Entries<K, V>) {
    Sound(l) && |l.order| <= size
  }

  function Empty<K, V>(): (l: Entries<K, V>) {
    Entries([], map[])
  }

  function Without<K(==)>(s: seq<K>, k: K): (r: seq<K>)
    ensures k !in s ==> r == s
    ensures |r| >= |s| - 1 && (k in s ==> |r| == |s| - 1)
    ensures forall x :: x in r ==> x in s
    ensures forall x :: x in s && x != k ==> x in r
  {
    if s == [] then [] else if s[0] == k then s[1..] else [s[0]] + Without(s[1..], k)
  }

  lemma DistinctTail<K>(s: seq<K>)
    requires s != [] && Distinct(s)
    ensures Distinct(s[1..]) && s[0] !in s[1..]
  {}

  lemma DistinctCons<K>(k: K, s: seq<K>)
    requires Distinct(s) && k !in s
    ensures Distinct([k] + s)
  {}

  lemma {:induction false} WithoutDistinct<K>(s: seq<K>, k: K)
    requires Distinct(s)
    ensures Distinct(Without(s, k)) && k !in Without(s, k)
  {
    hide Distinct;
    if s != [] {
      DistinctTail(s);
      if s[0] != k {
        WithoutDistinct(s[1..], k);
        DistinctCons(s[0], Without(s[1..], k));
      }
    }
  }

  function Removed<K(==), V>(l: Entries<K, V>, k: K): (r: Entries<K, V>) {
    Entries(Without(l.order, k), l.items - {k})
  }

  /** `k` becomes the newest entry, with value `v`. */
  function Touched<K(==), V>(l: Entries<K, V>, k: K, v: V): (r: Entries<K, V>) {
    Entries([k] + Without(l.order, k), l.items[k := v])
  }

  /** The oldest entry is dropped, if there is one. */
  function Dropped<K(==), V>(l: Entries<K, V>): (r: Entries<K, V>) {
    if l.order == [] then l
    else Entries(l.order[..|l.order| - 1], l.items - {l.order[|l.order| - 1]})
  }

  /** Adding updates and refreshes, or inserts and then drops the oldest when over capacity. */
  function Added<K(==), V>(size: nat, l: Entries<K, V>, k: K, v: V): (r: Entries<K, V>) {
    var t := Touched(l, k, v);
    if |t.order| > size then Dropped(t) else t
  }

  lemma RemovedSound<K, V>(l: Entries<K, V>, k: K)
    requires Sound(l)
    ensures Sound(Removed(l, k)) && Removed(l, k).items == l.items - {k}
    ensures |Removed(l, k).order| == if k in l.items then |l.order| - 1 else |l.order|
  {
    WithoutDistinct(l.order, k);
  }

  lemma TouchedSound<K, V>(l: Entries<K, V>, k: K, v: V)
    requires Sound(l)
    ensures Sound(Touched(l, k, v)) && Touched(l, k, v).items == l.items[k := v]
    ensures |Touched(l, k, v).order| == if k in l.items then |l.order| else |l.order| + 1
  {
    WithoutDistinct(l.order, k);
  }

  lemma DroppedSound<K, V>(l: Entries<K, V>)
    requires Sound(l)
    ensures Sound(Dropped(l))
    ensures l.order != [] ==>
      |Dropped(l).order| == |l.order| - 1 && l.order[|l.order| - 1] in l.items && l.order[|l.order| - 1] !in Dropped(l).items
    ensures l.order == [] ==> Dropped(l) == l
    ensures Dropped(l).items.Keys <= l.items.Keys
    ensures forall k :: k in Dropped(l).items ==> k in l.items && Dropped(l).items[k] == l.items[k]
    ensures forall k :: k in l.items && k !in Dropped(l).items ==> k == l.order[|l.order| - 1]
  {
    if l.order != [] {
      var s := l.order;
      assert forall x :: x in s ==> x in s[..|s| - 1] || x == s[|s| - 1];
    }
  }

  /** What adding does to membership, values and length. */
  lemma AddedFacts<K, V>(size: nat, l: Entries<K, V>, k: K, v: V)
    requires Sound(l) && size > 0 && |l.order| <= size
    ensures var r := Added(size, l, k, v);
      && Sound(r) && |r.order| <= size
      && k in r.items && r.items[k] == v
      && r.items.Keys <= l.items.Keys + {k}
      && (forall x :: x in r.items && x != k ==> x in l.items && r.items[x] == l.items[x])
      && (k in l.items || |l.order| < size ==> forall x :: x in l.items ==> x in r.items)
      && |r.order| == if k in l.items then |l.order| else if |l.order| < size then |l.order| + 1 else size
  {
    TouchedSound(l, k, v);
    var t := Touched(l, k, v);
    DroppedSound(t);
    if |t.order| > size {
      assert t.order[0] == k && t.order[|t.order| - 1] != k;
    }
  }

  lemma RemovedAbsent<K, V>(l: Entries<K, V>, k: K)
    requires Sound(l)
    ensures k !in l.items ==> Removed(l, k) == l
  {
    if k !in l.items {
      assert l.items - {k} == l.items;
    }
  }

  lemma OrderIsDomain<K, V>(l: Entries<K, V>, k: K)
    requires Sound(l)
    ensures k in l.order <==> k in l.items
  {}

  class LRU<K(==), V> {
    const size: nat
    var order: seq<K>
    var items: map<K, V>

    ghost predicate Valid()
      reads this
    {
      size > 0 && Sound(Contents()) && |order| <= size
    }

    function Contents(): (l: Entries<K, V>)
      reads this
    {
      Entries(order, items)
    }

    constructor (size: nat)
      requires size > 0
      ensures Valid() && Contents() == Empty() && this.size == size
    {
      this.size, order, items := size, [], map[];
    }

    method Purge()
      requires Valid()
      modifies this
      ensures Valid() && Contents() == Empty()
    {
      order, items := [], map[];
    }

    method Add(key: K, value: V) returns (evict: bool)
      requires Valid()
      modifies this
      ensures Valid() && Contents() == Added(size, old(Contents()), key, value)
      ensures evict <==> key !in old(items) && |old(order)| == size
    {
      hide Sound;
      ghost var before := Contents();
      AddedFacts(size, Contents(), key, value);
      TouchedSound(Contents(), key, value);
      OrderIsDomain(Contents(), key);
      if key in items {
        order, items := [key] + Without(order, key), items[key := value];
        return false;
      }
      order, items := [key] + order, items[key := value];
      assert Contents() == Touched(before, key, value);
      evict := |order| > size;
      if evict {
        RemoveElement(|order| - 1);
      }
      assert Contents() == Added(size, before, key, value);
    }

    method Get(key: K) returns (value: Option<V>)
      requires Valid()
      modifies this
      ensures Valid() && value == if key in old(items) then Some(old(items)[key]) else None
      ensures Contents() == if key in old(items) then Touched(old(Contents()), key, old(items)[key]) else old(Contents())
    {
      if key in items {
        TouchedSound(Contents(), key, items[key]);
        order := [key] + Without(order, key);
        assert items == items[key := items[key]];
        return Some(items[key]);
      }
      return None;
    }

    method Remove(key: K) returns (present: bool)
      requires Valid()
      modifies this
      ensures Valid() && Contents() == Removed(old(Contents()), key) && (present <==> key in old(items))
    {
      RemovedSound(Contents(), key);
      if key in items {
        order, items := Without(order, key), items - {key};
        return true;
      }
      return false;
    }

    method RemoveOldest() returns (key: Option<K>, value: Option<V>)
      requires Valid()
      modifies this
      ensures Valid() && Contents() == Dropped(old(Contents()))
      ensures old(order) == [] ==> key == None && value == None
      ensures old(order) != [] ==>
        var k := old(order)[|old(order)| - 1];
        k in old(items) && key == Some(k) && value == Some(old(items)[k])
    {
      if order == [] { return None, None; }
      DroppedSound(Contents());
      key := Some(order[|order| - 1]);
      value := Some(items[key.value]);
      RemoveElement(|order| - 1);
    }

    /** Takes one list element out of the list and out of the table. */
    method RemoveElement(at: nat)
      requires at < |order|
      modifies this
      ensures order == old(order)[..at] + old(order)[at + 1..] && items == old(items) - {old(order)[at]}
    {
      var key := order[at];
      order, items := order[..at] + order[at + 1..], items - {key};
    }
  }
}

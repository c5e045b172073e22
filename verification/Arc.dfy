/** The adaptive replacement cache of hashicorp/golang-lru/arc.go: its state as a value, and what
    every sequence of operations keeps. */
module Arc {
  import opened Common
  import opened Lru
  import opened CacheOps

  /** Recent entries t1, frequent entries t2, the keys evicted from them b1 and b2, and the learned
      preference p for t1. */
  datatype Cache<K, V> = Cache(
    size: nat, p: nat,
    t1: Entries<K, V>, t2: Entries<K, V>,
    b1: Entries<K, ()>, b2: Entries<K, ()>)
  {
    function Len(): (n: nat) {
      |t1.order| + |t2.order|
    }
  }

  function New<K, V>(size: nat): (c: Cache<K, V>) {
    Cache(size, 0, Empty(), Empty(), Empty(), Empty())
  }

  /** Whether making room evicts from t1 rather than from t2. */
  predicate FromRecent<K, V>(c: Cache<K, V>, b2ContainsKey: bool) {
    |c.t1.order| > 0 && (|c.t1.order| > c.p || (|c.t1.order| == c.p && b2ContainsKey))
  }

  function Replaced<K(==), V>(c: Cache<K, V>, b2ContainsKey: bool): (r: Cache<K, V>) {
    if FromRecent(c, b2ContainsKey) then
      c.(t1 := Dropped(c.t1), b1 := Added(c.size, c.b1, c.t1.order[|c.t1.order| - 1], ()))
    else if c.t2.order == [] then c
    else c.(t2 := Dropped(c.t2), b2 := Added(c.size, c.b2, c.t2.order[|c.t2.order| - 1], ()))
  }

  function MadeRoom<K(==), V>(c: Cache<K, V>, b2ContainsKey: bool): (r: Cache<K, V>) {
    if c.Len() >= c.size then Replaced(c, b2ContainsKey) else c
  }

  /** The step by which a hit among the evicted keys moves p: the ratio of the two ghost lists. */
  function Delta(here: nat, there: nat): (d: nat)
    requires here > 0
    ensures d >= 1
  {
    if there > here then there / here else 1
  }

  function Promoted<K(==), V>(c: Cache<K, V>, k: K, v: V): (r: Cache<K, V>) {
    c.(t1 := Removed(c.t1, k), t2 := Added(c.size, c.t2, k, v))
  }

  function GrownP<K(==), V>(c: Cache<K, V>): (r: Cache<K, V>)
    requires |c.b1.order| > 0
  {
    var d := Delta(|c.b1.order|, |c.b2.order|);
    c.(p := if c.p + d >= c.size then c.size else c.p + d)
  }

  function ShrunkP<K(==), V>(c: Cache<K, V>): (r: Cache<K, V>)
    requires |c.b2.order| > 0
  {
    var d := Delta(|c.b2.order|, |c.b1.order|);
    c.(p := if d >= c.p then 0 else c.p - d)
  }

  function TrimmedGhosts<K(==), V>(c: Cache<K, V>): (r: Cache<K, V>) {
    c.(b1 := if |c.b1.order| + c.p > c.size then Dropped(c.b1) else c.b1,
       b2 := if |c.b2.order| > c.p then Dropped(c.b2) else c.b2)
  }

  function Put<K(==), V>(c: Cache<K, V>, k: K, v: V): (r: Cache<K, V>)
    requires Inv(c)
  {
    if k in c.t1.items then Promoted(c, k, v)
    else if k in c.t2.items then c.(t2 := Added(c.size, c.t2, k, v))
    else if k in c.b1.items then
      var c1 := MadeRoom(GrownP(c), false);
      c1.(b1 := Removed(c1.b1, k), t2 := Added(c.size, c1.t2, k, v))
    else if k in c.b2.items then
      var c1 := MadeRoom(ShrunkP(c), true);
      c1.(b2 := Removed(c1.b2, k), t2 := Added(c.size, c1.t2, k, v))
    else
      var c1 := TrimmedGhosts(MadeRoom(c, false));
      c1.(t1 := Added(c.size, c1.t1, k, v))
  }

  /** The value a lookup finds. */
  function Peek<K(==), V>(c: Cache<K, V>, k: K): (v: Option<V>) {
    if k in c.t1.items then Some(c.t1.items[k])
    else if k in c.t2.items then Some(c.t2.items[k])
    else None
  }

  /** A lookup by Get promotes what it finds. */
  function Got<K(==), V>(c: Cache<K, V>, k: K): (r: Cache<K, V>) {
    if k in c.t1.items then Promoted(c, k, c.t1.items[k])
    else if k in c.t2.items then c.(t2 := Touched(c.t2, k, c.t2.items[k]))
    else c
  }

  function Deleted<K(==), V>(c: Cache<K, V>, k: K): (r: Cache<K, V>) {
    if k in c.t1.items then c.(t1 := Removed(c.t1, k))
    else if k in c.t2.items then c.(t2 := Removed(c.t2, k))
    else if k in c.b1.items then c.(b1 := Removed(c.b1, k))
    else if k in c.b2.items then c.(b2 := Removed(c.b2, k))
    else c
  }

  function Purged<K, V>(c: Cache<K, V>): (r: Cache<K, V>) {
    New(c.size).(p := c.p)
  }

  // ---------- the invariant

  ghost predicate Apart<K, V>(c: Cache<K, V>) {
    && c.t1.items.Keys !! c.t2.items.Keys && c.t1.items.Keys !! c.b1.items.Keys && c.t1.items.Keys !! c.b2.items.Keys
    && c.t2.items.Keys !! c.b1.items.Keys && c.t2.items.Keys !! c.b2.items.Keys && c.b1.items.Keys !! c.b2.items.Keys
  }

  ghost predicate Inv<K, V>(c: Cache<K, V>) {
    && c.size > 0 && c.p <= c.size
    && ListOk(c.size, c.t1) && ListOk(c.size, c.t2) && ListOk(c.size, c.b1) && ListOk(c.size, c.b2)
    && Apart(c)
    && c.Len() <= c.size + 1
  }

  /** Everything cached in `c` is cached in `m` with the same value. */
  ghost predicate Agrees<K, V>(c: Cache<K, V>, m: map<K, V>) {
    && (forall k :: k in c.t1.items ==> k in m && m[k] == c.t1.items[k])
    && (forall k :: k in c.t2.items ==> k in m && m[k] == c.t2.items[k])
  }

  lemma ListHas<K, V>(size: nat, l: Entries<K, V>, k: K)
    requires ListOk(size, l) && k in l.items
    ensures |l.order| > 0
  {}

  /** Making room caches nothing new and forgets no cached key (an evicted one is remembered in the
      ghost list of its own list), and it frees a slot except when there is nothing frequent to evict
      and t1 is within its preferred size. */
  lemma ReplacedKeeps<K, V>(c: Cache<K, V>, b2ContainsKey: bool, m: map<K, V>)
    requires Inv(c) && Agrees(c, m)
    ensures var r := Replaced(c, b2ContainsKey);
      && Inv(r) && Agrees(r, m) && r.size == c.size && r.p == c.p
      && r.Len() == (if !FromRecent(c, b2ContainsKey) && c.t2.order == [] then c.Len() else c.Len() - 1)
      && r.t1.items.Keys <= c.t1.items.Keys && r.t2.items.Keys <= c.t2.items.Keys
      && |r.t2.order| <= |c.t2.order|
      && r.b1.items.Keys <= c.b1.items.Keys + c.t1.items.Keys
      && r.b2.items.Keys <= c.b2.items.Keys + c.t2.items.Keys
      && c.t1.items.Keys <= r.t1.items.Keys + r.b1.items.Keys
      && c.t2.items.Keys <= r.t2.items.Keys + r.b2.items.Keys
  {
    hide Sound, Added, Removed, Dropped, Touched;
    if FromRecent(c, b2ContainsKey) {
      DroppedSound(c.t1);
      AddedFacts(c.size, c.b1, c.t1.order[|c.t1.order| - 1], ());
    } else if c.t2.order != [] {
      DroppedSound(c.t2);
      AddedFacts(c.size, c.b2, c.t2.order[|c.t2.order| - 1], ());
    }
  }

  lemma MadeRoomKeeps<K, V>(c: Cache<K, V>, b2ContainsKey: bool, m: map<K, V>)
    requires Inv(c) && Agrees(c, m)
    ensures var r := MadeRoom(c, b2ContainsKey);
      && Inv(r) && Agrees(r, m) && r.size == c.size && r.p == c.p
      && r.t1.items.Keys <= c.t1.items.Keys && r.t2.items.Keys <= c.t2.items.Keys
      && |r.t2.order| <= |c.t2.order|
      && r.b1.items.Keys <= c.b1.items.Keys + c.t1.items.Keys
      && r.b2.items.Keys <= c.b2.items.Keys + c.t2.items.Keys
      && r.Len() <= c.size
      && (r.Len() == c.size ==>
          c.Len() == c.size + 1 || (|c.t1.order| == c.size == c.p && c.t2.order == [] && !b2ContainsKey))
      && (c.Len() == c.size + 1 ==> r.Len() == c.size)
      && (|c.t1.order| == c.size == c.p && c.t2.order == [] && !b2ContainsKey ==> r == c)
  {
    hide Apart, Agrees;
    ReplacedKeeps(c, b2ContainsKey, m);
  }

  /** Promotion keeps the number of entries. */
  lemma PromotedKeeps<K, V>(c: Cache<K, V>, k: K, v: V, m: map<K, V>)
    requires Inv(c) && k in c.t1.items && Agrees(c, m)
    ensures Inv(Promoted(c, k, v)) && Agrees(Promoted(c, k, v), m[k := v])
    ensures Promoted(c, k, v).Len() <= c.Len()
    ensures c.Len() <= c.size ==> Promoted(c, k, v).Len() == c.Len()
  {
    hide Sound, Added, Removed, Dropped, Touched;
    RemovedSound(c.t1, k);
    AddedFacts(c.size, c.t2, k, v);
    ListHas(c.size, c.t1, k);
  }

  /** A frequent entry added or refreshed. */
  lemma FrequentKeeps<K, V>(c: Cache<K, V>, k: K, v: V, m: map<K, V>)
    requires Inv(c) && Agrees(c, m) && k !in c.t1.items && k !in c.b1.items && k !in c.b2.items
    requires k in c.t2.items || c.Len() <= c.size
    ensures var r := c.(t2 := Added(c.size, c.t2, k, v));
      && Inv(r) && Agrees(r, m[k := v])
      && (k !in c.t2.items ==> r.Len() == c.Len() + (if |c.t2.order| < c.size then 1 else 0))
      && (k in c.t2.items ==> r.Len() == c.Len())
  {
    hide Sound, Added, Removed, Dropped, Touched;
    AddedFacts(c.size, c.t2, k, v);
  }

  lemma RecentKeeps<K, V>(c: Cache<K, V>, k: K, v: V, m: map<K, V>)
    requires Inv(c) && Agrees(c, m) && c.Len() <= c.size
    requires k !in c.t1.items && k !in c.t2.items && k !in c.b1.items && k !in c.b2.items
    ensures var r := c.(t1 := Added(c.size, c.t1, k, v));
      && Inv(r) && Agrees(r, m[k := v])
      && r.Len() == c.Len() + (if |c.t1.order| < c.size then 1 else 0)
  {
    hide Sound, Added, Removed, Dropped, Touched;
    AddedFacts(c.size, c.t1, k, v);
  }

  lemma GhostsKeep<K, V>(c: Cache<K, V>, k: K, m: map<K, V>)
    requires Inv(c) && Agrees(c, m)
    ensures var r := TrimmedGhosts(c);
      && Inv(r) && Agrees(r, m) && r.t1 == c.t1 && r.t2 == c.t2
      && r.b1.items.Keys <= c.b1.items.Keys && r.b2.items.Keys <= c.b2.items.Keys
    ensures Inv(c.(b1 := Removed(c.b1, k))) && Inv(c.(b2 := Removed(c.b2, k)))
    ensures k !in Removed(c.b1, k).items && k !in Removed(c.b2, k).items
  {
    hide Sound, Added, Removed, Dropped, Touched;
    DroppedSound(c.b1);
    DroppedSound(c.b2);
    RemovedSound(c.b1, k);
    RemovedSound(c.b2, k);
  }

  /** What the cache is like after making room for a key that it does not hold. */
  function RoomFor<K(==), V>(c: Cache<K, V>, k: K): (r: Cache<K, V>)
    requires Inv(c)
  {
    if k in c.b1.items then
      var c1 := MadeRoom(GrownP(c), false);
      c1.(b1 := Removed(c1.b1, k))
    else if k in c.b2.items then
      var c1 := MadeRoom(ShrunkP(c), true);
      c1.(b2 := Removed(c1.b2, k))
    else TrimmedGhosts(MadeRoom(c, false))
  }

  lemma RoomForKeeps<K, V>(c: Cache<K, V>, k: K, m: map<K, V>)
    requires Inv(c) && Agrees(c, m) && k !in c.t1.items && k !in c.t2.items
    ensures var r := RoomFor(c, k);
      && Inv(r) && Agrees(r, m) && r.size == c.size && r.Len() <= c.size
      && k !in r.t1.items && k !in r.t2.items && k !in r.b1.items && k !in r.b2.items
      && |r.t2.order| <= |c.t2.order|
  {
    hide Agrees, ListOk, Removed, Dropped, MadeRoom, Delta;
    if k in c.b1.items {
      ListHas(c.size, c.b1, k);
      var g := GrownP(c);
      AgreesEntries(c, g, m);
      MadeRoomKeeps(g, false, m);
      GhostsKeep(MadeRoom(g, false), k, m);
      AgreesEntries(MadeRoom(g, false), RoomFor(c, k), m);
    } else if k in c.b2.items {
      ListHas(c.size, c.b2, k);
      var g := ShrunkP(c);
      AgreesEntries(c, g, m);
      MadeRoomKeeps(g, true, m);
      GhostsKeep(MadeRoom(g, true), k, m);
      AgreesEntries(MadeRoom(g, true), RoomFor(c, k), m);
    } else {
      MadeRoomKeeps(c, false, m);
      GhostsKeep(MadeRoom(c, false), k, m);
    }
  }

  lemma AgreesEntries<K, V>(c: Cache<K, V>, d: Cache<K, V>, m: map<K, V>)
    requires c.t1 == d.t1 && c.t2 == d.t2 && Agrees(c, m)
    ensures Agrees(d, m)
  {}

  lemma PutIs<K, V>(c: Cache<K, V>, k: K, v: V)
    requires Inv(c) && k !in c.t1.items && k !in c.t2.items
    ensures var r := RoomFor(c, k);
      Put(c, k, v) == if k in c.b1.items || k in c.b2.items
                      then r.(t2 := Added(c.size, r.t2, k, v)) else r.(t1 := Added(c.size, r.t1, k, v))
  {}

  /** Add keeps the invariant, and the plain map that records additions. */
  lemma PutKeeps<K, V>(c: Cache<K, V>, k: K, v: V, m: map<K, V>)
    requires Inv(c) && Agrees(c, m)
    ensures Inv(Put(c, k, v)) && Agrees(Put(c, k, v), m[k := v]) && Put(c, k, v).size == c.size
  {
    hide Inv, Agrees, RoomFor;
    if k in c.t1.items {
      PromotedKeeps(c, k, v, m);
    } else if k in c.t2.items {
      ApartFrom(c, k);
      FrequentKeeps(c, k, v, m);
    } else {
      PutIs(c, k, v);
      RoomForKeeps(c, k, m);
      if k in c.b1.items || k in c.b2.items {
        FrequentKeeps(RoomFor(c, k), k, v, m);
      } else {
        RecentKeeps(RoomFor(c, k), k, v, m);
      }
    }
  }

  lemma ApartFrom<K, V>(c: Cache<K, V>, k: K)
    requires Inv(c) && k in c.t2.items
    ensures k !in c.t1.items && k !in c.b1.items && k !in c.b2.items
  {}

  lemma GotKeeps<K, V>(c: Cache<K, V>, k: K, m: map<K, V>)
    requires Inv(c) && Agrees(c, m)
    ensures Inv(Got(c, k)) && Agrees(Got(c, k), m) && Got(c, k).size == c.size
  {
    hide Sound, Removed, Added, Touched;
    if k in c.t1.items {
      PromotedKeeps(c, k, c.t1.items[k], m);
      assert m[k := c.t1.items[k]] == m;
    } else if k in c.t2.items {
      TouchedSound(c.t2, k, c.t2.items[k]);
    }
  }

  /** Remove takes the key out of whichever list has it, and so out of all four. */
  lemma DeletedKeeps<K, V>(c: Cache<K, V>, k: K, m: map<K, V>)
    requires Inv(c) && Agrees(c, m)
    ensures var r := Deleted(c, k);
      && Inv(r) && Agrees(r, m - {k}) && r.size == c.size
      && k !in r.t1.items && k !in r.t2.items && k !in r.b1.items && k !in r.b2.items
  {
    hide Sound, Added, Removed, Dropped, Touched;
    RemovedSound(c.t1, k);
    RemovedSound(c.t2, k);
    RemovedSound(c.b1, k);
    RemovedSound(c.b2, k);
  }

  // ---------- whole runs

  function Applied<K(==), V>(c: Cache<K, V>, op: Op<K, V>): (r: Cache<K, V>)
    requires Inv(c)
  {
    match op
    case Add(k, v) => Put(c, k, v)
    case Get(k) => Got(c, k)
    case Remove(k) => Deleted(c, k)
    case Purge => Purged(c)
  }

  /** The cache after a sequence of operations on a new one. */
  function After<K(==), V>(size: nat, ops: seq<Op<K, V>>): (c: Cache<K, V>)
    requires size > 0
    ensures Inv(c) && c.size == size
    ensures Agrees(c, Latest(ops))
  {
    if ops == [] then New(size)
    else
      var c, op, m := After(size, ops[..|ops| - 1]), ops[|ops| - 1], Latest(ops[..|ops| - 1]);
      AppliedKeeps(c, op, m);
      Applied(c, op)
  }

  lemma AppliedKeeps<K, V>(c: Cache<K, V>, op: Op<K, V>, m: map<K, V>)
    requires Inv(c) && Agrees(c, m)
    ensures Inv(Applied(c, op)) && Agrees(Applied(c, op), Recorded(m, op)) && Applied(c, op).size == c.size
  {
    hide Inv, Agrees, Put, Got, Deleted;
    match op {
      case Add(k, v) => PutKeeps(c, k, v, m);
      case Get(k) => GotKeeps(c, k, m);
      case Remove(k) => DeletedKeeps(c, k, m);
      case Purge => PurgedKeeps(c);
    }
  }

  lemma PurgedKeeps<K, V>(c: Cache<K, V>)
    requires Inv(c)
    ensures Inv(Purged(c)) && Agrees(Purged(c), map[])
  {}

  /** In every run the four lists are disjoint and bounded, p stays in range, and at most one entry
      more than the size is cached. */
  lemma RunInvariant<K, V>(size: nat, ops: seq<Op<K, V>>)
    requires size > 0
    ensures var c := After(size, ops);
      && Apart(c) && c.p <= size && c.Len() <= size + 1
      && |c.t1.order| <= size && |c.t2.order| <= size && |c.b1.order| <= size && |c.b2.order| <= size
  {
    hide After;
    var c := After(size, ops);
    assert Inv(c);
  }

  /** In every run, a hit returns the last value added for the key since it was last removed. */
  lemma HitsAreLatest<K, V>(size: nat, ops: seq<Op<K, V>>, k: K)
    requires size > 0 && Peek(After(size, ops), k).Some?
    ensures k in Latest(ops) && Peek(After(size, ops), k).value == Latest(ops)[k]
  {
    hide After, Latest;
    assert Agrees(After(size, ops), Latest(ops));
  }

  /** In every run, what has just been added is found. */
  lemma AddThenHit<K, V>(size: nat, ops: seq<Op<K, V>>, k: K, v: V)
    requires size > 0
    ensures Peek(Put(After(size, ops), k, v), k) == Some(v)
  {
    hide After;
    PutHolds(After(size, ops), k, v);
  }

  lemma PutHolds<K, V>(c: Cache<K, V>, k: K, v: V)
    requires Inv(c)
    ensures Peek(Put(c, k, v), k) == Some(v)
  {
    hide Inv, Agrees, RoomFor, Added, Removed;
    var m := CachedAs(c);
    if k in c.t1.items {
      InvLists(c);
      RemovedSound(c.t1, k);
      AddedFacts(c.size, c.t2, k, v);
    } else if k in c.t2.items {
      InvLists(c);
      AddedFacts(c.size, c.t2, k, v);
    } else {
      PutIs(c, k, v);
      RoomForKeeps(c, k, m);
      var r := RoomFor(c, k);
      InvLists(r);
      AddedFacts(c.size, r.t1, k, v);
      AddedFacts(c.size, r.t2, k, v);
    }
  }

  lemma InvLists<K, V>(c: Cache<K, V>)
    requires Inv(c)
    ensures c.size > 0 && ListOk(c.size, c.t1) && ListOk(c.size, c.t2)
  {}

  /** The plain map that holds just what is cached. */
  lemma CachedAs<K, V>(c: Cache<K, V>) returns (m: map<K, V>)
    requires Inv(c)
    ensures Agrees(c, m)
  {
    m := c.t1.items + c.t2.items;
  }

  /** In every run, a removed key is gone from all four lists. */
  lemma RemoveForgets<K, V>(size: nat, ops: seq<Op<K, V>>, k: K)
    requires size > 0
    ensures var r := Deleted(After(size, ops), k);
      k !in r.t1.items && k !in r.t2.items && k !in r.b1.items && k !in r.b2.items
  {
    hide After, Latest, Deleted;
    DeletedKeeps(After(size, ops), k, Latest(ops));
  }

  // ---------- the extra slot

  /** The state in which making room for a key evicts nothing: the key is known from b1, which raises
      p to the full size, t1 alone fills the cache, and there is nothing frequent to evict. */
  predicate Overflows<K(==), V>(c: Cache<K, V>, k: K)
    requires Inv(c)
  {
    && k !in c.t1.items && k !in c.t2.items && k in c.b1.items
    && |c.t1.order| == c.size && c.t2.order == [] && GrownP(c).p == c.size
  }

  lemma WithinSizeIff<K, V>(c: Cache<K, V>, k: K, v: V)
    requires Inv(c) && c.Len() <= c.size
    ensures Put(c, k, v).Len() <= c.size <==> !Overflows(c, k)
  {
    hide Agrees, Apart, RoomFor, Added, Removed, Dropped, MadeRoom, Delta, Sound;
    var m := CachedAs(c);
    if k in c.t1.items {
      PromotedKeeps(c, k, v, m);
    } else if k in c.t2.items {
      ApartFrom(c, k);
      FrequentKeeps(c, k, v, m);
    } else {
      PutIs(c, k, v);
      RoomForKeeps(c, k, m);
      RoomForLen(c, k, m);
      if k in c.b1.items || k in c.b2.items {
        FrequentKeeps(RoomFor(c, k), k, v, m);
      } else {
        RecentKeeps(RoomFor(c, k), k, v, m);
      }
    }
  }

  /** What brings a cache with one entry too many back to its size: a list that is itself full and
      gets the added key while the other gives one up. */
  predicate ComesBack<K(==), V>(c: Cache<K, V>, k: K)
    requires Inv(c)
  {
    if k in c.t1.items then |c.t2.order| == c.size
    else if k in c.t2.items || k in c.b1.items then false
    else if k in c.b2.items then |c.t2.order| == c.size && ShrunkP(c).p <= 1
    else |c.t1.order| == c.size == c.p
  }

  /** Exactly when an Add leaves the cache within its size: from within it, unless the Add overflows;
      with one entry too many, if the Add brings it back. */
  lemma SizeKeptIff<K, V>(c: Cache<K, V>, k: K, v: V)
    requires Inv(c)
    ensures Put(c, k, v).Len() <= c.size <==> if c.Len() <= c.size then !Overflows(c, k) else ComesBack(c, k)
  {
    hide Put, Overflows, ComesBack;
    if c.Len() <= c.size {
      WithinSizeIff(c, k, v);
    } else {
      OverfullIff(c, k, v);
    }
  }

  lemma OverfullIff<K, V>(c: Cache<K, V>, k: K, v: V)
    requires Inv(c) && c.Len() == c.size + 1
    ensures Put(c, k, v).Len() <= c.size <==> ComesBack(c, k)
  {
    hide Agrees, Apart, RoomFor, Added, Removed, Dropped, MadeRoom, Delta, Sound;
    var m := CachedAs(c);
    if k in c.t1.items {
      RemovedSound(c.t1, k);
      ApartLists(c);
      AddedFacts(c.size, c.t2, k, v);
    } else if k in c.t2.items {
      ApartFrom(c, k);
      FrequentKeeps(c, k, v, m);
    } else {
      PutIs(c, k, v);
      RoomForKeeps(c, k, m);
      OverfullRoom(c, k, m);
      if k in c.b1.items || k in c.b2.items {
        FrequentKeeps(RoomFor(c, k), k, v, m);
      } else {
        RecentKeeps(RoomFor(c, k), k, v, m);
      }
    }
  }

  lemma ApartLists<K, V>(c: Cache<K, V>)
    requires Apart(c)
    ensures c.t1.items.Keys !! c.t2.items.Keys
  {}

  /** Room is made in an overfull cache in t1 or in t2, by the rule of replace. */
  lemma OverfullRoom<K, V>(c: Cache<K, V>, k: K, m: map<K, V>)
    requires Inv(c) && Agrees(c, m) && c.Len() == c.size + 1 && k !in c.t1.items && k !in c.t2.items
    ensures var r := RoomFor(c, k);
      && r.Len() == c.size
      && (k in c.b1.items || k in c.b2.items ==> (|r.t2.order| == c.size <==> ComesBack(c, k)))
      && (k !in c.b1.items && k !in c.b2.items ==> (|r.t1.order| == c.size <==> ComesBack(c, k)))
  {
    hide Agrees, Apart, Removed, Dropped, Sound, Added;
    DroppedLen(c.t1);
    DroppedLen(c.t2);
    if k in c.b1.items {
      ListHas(c.size, c.b1, k);
    } else if k in c.b2.items {
      ListHas(c.size, c.b2, k);
    }
  }

  lemma DroppedLen<K, V>(l: Entries<K, V>)
    ensures |Dropped(l).order| == if l.order == [] then 0 else |l.order| - 1
  {}

  /** After making room the cache is full only in the overflowing state, or when t1 is. */
  lemma RoomForLen<K, V>(c: Cache<K, V>, k: K, m: map<K, V>)
    requires Inv(c) && Agrees(c, m) && c.Len() <= c.size && k !in c.t1.items && k !in c.t2.items
    ensures var r := RoomFor(c, k);
      && (Overflows(c, k) ==> r.t1 == c.t1 && r.t2 == c.t2)
      && (r.Len() == c.size ==> Overflows(c, k) || (k !in c.b1.items && k !in c.b2.items && |r.t1.order| == c.size))
  {
    hide Agrees, Apart, Removed, Dropped, MadeRoom, Delta, Sound;
    if k in c.b1.items {
      ListHas(c.size, c.b1, k);
      var g := GrownP(c);
      AgreesEntries(c, g, m);
      assert Apart(g) by { ApartEntries(c, g); }
      MadeRoomKeeps(g, false, m);
    } else if k in c.b2.items {
      ListHas(c.size, c.b2, k);
      var g := ShrunkP(c);
      AgreesEntries(c, g, m);
      assert Apart(g) by { ApartEntries(c, g); }
      MadeRoomKeeps(g, true, m);
    } else {
      MadeRoomKeeps(c, false, m);
    }
  }

  lemma ApartEntries<K, V>(c: Cache<K, V>, d: Cache<K, V>)
    requires Apart(c) && d == c.(p := d.p)
    ensures Apart(d)
  {}

  /** The states of a cache of size one to which 1, 2 and 1 again are added. */
  function Example(n: nat): (c: Cache<int, bool>)
    requires n <= 3
  {
    var e: Entries<int, ()>, none: Entries<int, bool> := Empty(), Empty();
    match n
    case 0 => New(1)
    case 1 => Cache(1, 0, Entries([1], map[1 := true]), none, e, e)
    case 2 => Cache(1, 0, Entries([2], map[2 := true]), none, Entries([1], map[1 := ()]), e)
    case 3 => Cache(1, 1, Entries([2], map[2 := true]), Entries([1], map[1 := true]), e, e)
  }

  lemma ExampleStep1()
    requires Inv(Example(0))
    ensures Put(Example(0), 1, true) == Example(1)
  {
    hide Inv;
    assert Added(1, Example(0).t1, 1, true) == Example(1).t1;
  }

  lemma ExampleStep2()
    requires Inv(Example(1))
    ensures Put(Example(1), 2, true) == Example(2)
  {
    hide Inv;
    assert Dropped(Example(1).t1) == Example(0).t1;
    assert Added(1, Example(1).b1, 1, ()) == Example(2).b1;
    assert Added(1, Example(0).t1, 2, true) == Example(2).t1;
  }

  lemma ExampleStep3()
    requires Inv(Example(2))
    ensures Put(Example(2), 1, true) == Example(3)
  {
    assert Removed(Example(2).b1, 1) == Example(3).b1;
    assert Added(1, Example(2).t2, 1, true) == Example(3).t2;
  }

  /** The overflow happens: adding 1, 2 and 1 again to a cache of size one leaves both keys cached. */
  lemma OverflowExample()
    ensures After(1, [Add(1, true), Add(2, true), Add(1, true)]).Len() == 2
  {
    hide Inv, Agrees, Put;
    var one, two: Op<int, bool> := Add(1, true), Add(2, true);
    assert After<int, bool>(1, []) == Example(0);
    ExampleStep1();
    assert [one][..0] == [] && After(1, [one]) == Example(1);
    ExampleStep2();
    assert [one, two][..1] == [one] && After(1, [one, two]) == Example(2);
    ExampleStep3();
    assert [one, two, one][..2] == [one, two] && After(1, [one, two, one]) == Example(3);
  }
}

/** The 2Q cache of hashicorp/golang-lru/2q.go: its state as a value, and what every sequence of
    operations keeps. */
module TwoQueue {
  import opened Common
  import opened Lru
  import opened CacheOps

  /** Entries seen once, entries seen more often, and the keys of entries evicted from the former. */
  datatype Cache<K, V> = Cache(
    size: nat, recentSize: nat, evictSize: nat,
    recent: Entries<K, V>, frequent: Entries<K, V>, recentEvict: Entries<K, ()>)
  {
    function Len(): (n: nat) {
      |recent.order| + |frequent.order|
    }
  }

  function New<K, V>(size: nat, recentSize: nat, evictSize: nat): (c: Cache<K, V>) {
    Cache(size, recentSize, evictSize, Empty(), Empty(), Empty())
  }

  predicate FromRecent<K, V>(c: Cache<K, V>, recentEvict: bool) {
    |c.recent.order| > 0 &&
    (|c.recent.order| > c.recentSize || (|c.recent.order| == c.recentSize && !recentEvict))
  }

  function EnsuredSpace<K(==), V>(c: Cache<K, V>, recentEvict: bool): (r: Cache<K, V>) {
    if c.Len() < c.size then c
    else if FromRecent(c, recentEvict) then
      c.(recent := Dropped(c.recent),
         recentEvict := Added(c.evictSize, c.recentEvict, c.recent.order[|c.recent.order| - 1], ()))
    else c.(frequent := Dropped(c.frequent))
  }

  function Promoted<K(==), V>(c: Cache<K, V>, k: K, v: V): (r: Cache<K, V>) {
    c.(recent := Removed(c.recent, k), frequent := Added(c.size, c.frequent, k, v))
  }

  /** The cache after making room for a key that it does not hold. */
  function RoomFor<K(==), V>(c: Cache<K, V>, k: K): (r: Cache<K, V>) {
    if k in c.recentEvict.items then
      var c1 := EnsuredSpace(c, true);
      c1.(recentEvict := Removed(c1.recentEvict, k))
    else EnsuredSpace(c, false)
  }

  function Put<K(==), V>(c: Cache<K, V>, k: K, v: V): (r: Cache<K, V>) {
    if k in c.frequent.items then c.(frequent := Added(c.size, c.frequent, k, v))
    else if k in c.recent.items then Promoted(c, k, v)
    else
      var c1 := RoomFor(c, k);
      if k in c.recentEvict.items then c1.(frequent := Added(c.size, c1.frequent, k, v))
      else c1.(recent := Added(c.size, c1.recent, k, v))
  }

  function Peek<K(==), V>(c: Cache<K, V>, k: K): (v: Option<V>) {
    if k in c.frequent.items then Some(c.frequent.items[k])
    else if k in c.recent.items then Some(c.recent.items[k])
    else None
  }

  function Got<K(==), V>(c: Cache<K, V>, k: K): (r: Cache<K, V>) {
    if k in c.frequent.items then c.(frequent := Touched(c.frequent, k, c.frequent.items[k]))
    else if k in c.recent.items then Promoted(c, k, c.recent.items[k])
    else c
  }

  function Deleted<K(==), V>(c: Cache<K, V>, k: K): (r: Cache<K, V>) {
    if k in c.frequent.items then c.(frequent := Removed(c.frequent, k))
    else if k in c.recent.items then c.(recent := Removed(c.recent, k))
    else if k in c.recentEvict.items then c.(recentEvict := Removed(c.recentEvict, k))
    else c
  }

  function Purged<K, V>(c: Cache<K, V>): (r: Cache<K, V>) {
    New(c.size, c.recentSize, c.evictSize)
  }

  // ---------- the invariant

  ghost predicate Apart<K, V>(c: Cache<K, V>) {
    && c.recent.items.Keys !! c.frequent.items.Keys
    && c.recent.items.Keys !! c.recentEvict.items.Keys
    && c.frequent.items.Keys !! c.recentEvict.items.Keys
  }

  /** The bound on entries is the size when the target for recent entries is smaller, and one more
      when it is the whole size. */
  ghost predicate Inv<K, V>(c: Cache<K, V>) {
    && c.size > 0 && c.recentSize <= c.size && c.evictSize > 0
    && ListOk(c.size, c.recent) && ListOk(c.size, c.frequent) && ListOk(c.evictSize, c.recentEvict)
    && Apart(c)
    && c.Len() <= if c.recentSize < c.size then c.size else c.size + 1
  }

  ghost predicate Agrees<K, V>(c: Cache<K, V>, m: map<K, V>) {
    && (forall k :: k in c.recent.items ==> k in m && m[k] == c.recent.items[k])
    && (forall k :: k in c.frequent.items ==> k in m && m[k] == c.frequent.items[k])
  }

  /** The plain map that holds just what is cached. */
  lemma CachedAs<K, V>(c: Cache<K, V>) returns (m: map<K, V>)
    requires Inv(c)
    ensures Agrees(c, m)
  {
    m := c.recent.items + c.frequent.items;
  }

  /** Only a full recent list with nothing frequent, under a target of the whole size, cannot be made
      room in. */
  predicate Immovable<K, V>(c: Cache<K, V>, recentEvict: bool) {
    c.frequent.order == [] && |c.recent.order| == c.size && c.recentSize == c.size && recentEvict
  }

  lemma EnsuredSpaceKeeps<K, V>(c: Cache<K, V>, recentEvict: bool, m: map<K, V>)
    requires Inv(c) && Agrees(c, m)
    ensures var r := EnsuredSpace(c, recentEvict);
      && Inv(r) && Agrees(r, m) && r.size == c.size && r.recentSize == c.recentSize && r.evictSize == c.evictSize
      && r.recent.items.Keys <= c.recent.items.Keys && r.frequent.items.Keys <= c.frequent.items.Keys
      && r.recentEvict.items.Keys <= c.recentEvict.items.Keys + c.recent.items.Keys
      && c.recent.items.Keys <= r.recent.items.Keys + r.recentEvict.items.Keys
      && (c.Len() >= c.size ==> r.Len() == (if Immovable(c, recentEvict) then c.Len() else c.Len() - 1))
      && (c.Len() < c.size || Immovable(c, recentEvict) ==> r.Len() == c.Len())
  {
    hide Sound, Added, Removed, Dropped;
    DroppedSound(c.frequent);
    if c.Len() >= c.size && FromRecent(c, recentEvict) {
      DroppedSound(c.recent);
      AddedFacts(c.evictSize, c.recentEvict, c.recent.order[|c.recent.order| - 1], ());
    }
  }

  lemma PromotedKeeps<K, V>(c: Cache<K, V>, k: K, v: V, m: map<K, V>)
    requires Inv(c) && k in c.recent.items && Agrees(c, m)
    ensures Inv(Promoted(c, k, v)) && Agrees(Promoted(c, k, v), m[k := v])
    ensures Promoted(c, k, v).Len() <= c.Len()
  {
    hide Sound, Added, Removed, Dropped;
    RemovedSound(c.recent, k);
    AddedFacts(c.size, c.frequent, k, v);
    assert |c.recent.order| > 0 by { HasSome(c.recent, k); }
  }

  lemma HasSome<K, V>(l: Entries<K, V>, k: K)
    requires Sound(l) && k in l.items
    ensures |l.order| > 0
  {}

  lemma RoomForKeeps<K, V>(c: Cache<K, V>, k: K, m: map<K, V>)
    requires Inv(c) && Agrees(c, m) && k !in c.recent.items && k !in c.frequent.items
    ensures var r := RoomFor(c, k);
      && Inv(r) && Agrees(r, m) && r.size == c.size && r.recentSize == c.recentSize && r.evictSize == c.evictSize
      && k !in r.recent.items && k !in r.frequent.items && k !in r.recentEvict.items
      && (Immovable(c, k in c.recentEvict.items) ==> r.Len() == c.Len() && r.frequent == c.frequent)
      && (c.Len() <= c.size && !Immovable(c, k in c.recentEvict.items) ==> r.Len() < c.size)
      && r.Len() <= c.size
  {
    hide Sound, Removed, EnsuredSpace;
    var flag := k in c.recentEvict.items;
    EnsuredSpaceKeeps(c, flag, m);
    RemovedSound(EnsuredSpace(c, flag).recentEvict, k);
    if Immovable(c, flag) {
      ImmovableStays(c, flag);
    }
  }

  lemma ImmovableStays<K, V>(c: Cache<K, V>, flag: bool)
    requires Immovable(c, flag)
    ensures EnsuredSpace(c, flag) == c
  {}

  /** Add keeps the invariant, and the plain map that records additions. */
  lemma PutKeeps<K, V>(c: Cache<K, V>, k: K, v: V, m: map<K, V>)
    requires Inv(c) && Agrees(c, m)
    ensures Inv(Put(c, k, v)) && Agrees(Put(c, k, v), m[k := v])
    ensures Put(c, k, v) == Put(c, k, v).(size := c.size, recentSize := c.recentSize, evictSize := c.evictSize)
  {
    hide Sound, Added, RoomFor;
    if k in c.frequent.items {
      AddedFacts(c.size, c.frequent, k, v);
    } else if k in c.recent.items {
      PromotedKeeps(c, k, v, m);
    } else {
      RoomForKeeps(c, k, m);
      NewEntryKeeps(RoomFor(c, k), k, v, m, k in c.recentEvict.items);
      if c.recentSize < c.size {
        assert !Immovable(c, k in c.recentEvict.items);
      }
      AddedFacts(c.size, RoomFor(c, k).frequent, k, v);
      AddedFacts(c.size, RoomFor(c, k).recent, k, v);
    }
  }

  /** A new entry in a cache with room for it is one entry more. */
  lemma NewEntryKeeps<K, V>(c: Cache<K, V>, k: K, v: V, m: map<K, V>, often: bool)
    requires Inv(c) && Agrees(c, m) && c.Len() <= c.size
    requires k !in c.recent.items && k !in c.frequent.items && k !in c.recentEvict.items
    ensures var r := if often then c.(frequent := Added(c.size, c.frequent, k, v)) else c.(recent := Added(c.size, c.recent, k, v));
      && (c.Len() < c.size || c.recentSize == c.size ==> Inv(r))
      && Agrees(r, m[k := v])
      && (c.Len() < c.size ==> r.Len() == c.Len() + 1)
      && (often && |c.frequent.order| < c.size ==> r.Len() == c.Len() + 1)
      && (!often && |c.recent.order| < c.size ==> r.Len() == c.Len() + 1)
  {
    hide Sound, Added;
    AddedFacts(c.size, c.frequent, k, v);
    AddedFacts(c.size, c.recent, k, v);
  }

  lemma GotKeeps<K, V>(c: Cache<K, V>, k: K, m: map<K, V>)
    requires Inv(c) && Agrees(c, m)
    ensures Inv(Got(c, k)) && Agrees(Got(c, k), m)
    ensures Got(c, k) == Got(c, k).(size := c.size, recentSize := c.recentSize, evictSize := c.evictSize)
  {
    hide Sound, Added, Removed, Touched;
    if k in c.frequent.items {
      TouchedSound(c.frequent, k, c.frequent.items[k]);
    } else if k in c.recent.items {
      PromotedKeeps(c, k, c.recent.items[k], m);
      assert m[k := c.recent.items[k]] == m;
    }
  }

  /** Remove takes the key out of whichever list has it, and so out of all three. */
  lemma DeletedKeeps<K, V>(c: Cache<K, V>, k: K, m: map<K, V>)
    requires Inv(c) && Agrees(c, m)
    ensures var r := Deleted(c, k);
      && Inv(r) && Agrees(r, m - {k})
      && r == r.(size := c.size, recentSize := c.recentSize, evictSize := c.evictSize)
      && k !in r.recent.items && k !in r.frequent.items && k !in r.recentEvict.items
  {
    hide Sound, Removed;
    RemovedSound(c.recent, k);
    RemovedSound(c.frequent, k);
    RemovedSound(c.recentEvict, k);
  }

  // ---------- whole runs

  function Applied<K(==), V>(c: Cache<K, V>, op: Op<K, V>): (r: Cache<K, V>) {
    match op
    case Add(k, v) => Put(c, k, v)
    case Get(k) => Got(c, k)
    case Remove(k) => Deleted(c, k)
    case Purge => Purged(c)
  }

  lemma AppliedKeeps<K, V>(c: Cache<K, V>, op: Op<K, V>, m: map<K, V>)
    requires Inv(c) && Agrees(c, m)
    ensures Inv(Applied(c, op)) && Agrees(Applied(c, op), Recorded(m, op))
    ensures Applied(c, op) == Applied(c, op).(size := c.size, recentSize := c.recentSize, evictSize := c.evictSize)
  {
    hide Put, Got, Deleted;
    match op {
      case Add(k, v) => PutKeeps(c, k, v, m);
      case Get(k) => GotKeeps(c, k, m);
      case Remove(k) => DeletedKeeps(c, k, m);
      case Purge =>
    }
  }

  /** The sizes that New2QParams accepts. */
  predicate Sizes(size: int, recentSize: int, evictSize: int) {
    0 < size && 0 <= recentSize <= size && 0 < evictSize
  }

  /** The cache after a sequence of operations on a new one. */
  function After<K(==), V>(size: nat, recentSize: nat, evictSize: nat, ops: seq<Op<K, V>>): (c: Cache<K, V>)
    requires Sizes(size, recentSize, evictSize)
    ensures Inv(c) && c == c.(size := size, recentSize := recentSize, evictSize := evictSize)
    ensures Agrees(c, Latest(ops))
  {
    if ops == [] then New(size, recentSize, evictSize)
    else
      var c, op := After(size, recentSize, evictSize, ops[..|ops| - 1]), ops[|ops| - 1];
      AppliedKeeps(c, op, Latest(ops[..|ops| - 1]));
      Applied(c, op)
  }

  /** In every run the three lists are disjoint, and with a target for recent entries below the size
      (the default is a quarter of it) never more than `size` entries are cached. */
  lemma RunInvariant<K, V>(size: nat, recentSize: nat, evictSize: nat, ops: seq<Op<K, V>>)
    requires Sizes(size, recentSize, evictSize)
    ensures var c := After(size, recentSize, evictSize, ops);
      && Apart(c) && |c.recentEvict.order| <= evictSize
      && c.Len() <= (if recentSize < size then size else size + 1)
  {
    hide After;
    assert Inv(After(size, recentSize, evictSize, ops));
  }

  /** In every run, a hit returns the last value added for the key since it was last removed. */
  lemma HitsAreLatest<K, V>(size: nat, recentSize: nat, evictSize: nat, ops: seq<Op<K, V>>, k: K)
    requires Sizes(size, recentSize, evictSize)
    requires Peek(After(size, recentSize, evictSize, ops), k).Some?
    ensures k in Latest(ops) && Peek(After(size, recentSize, evictSize, ops), k).value == Latest(ops)[k]
  {
    hide After, Latest;
    assert Agrees(After(size, recentSize, evictSize, ops), Latest(ops));
  }

  /** In every run, what has just been added is found. */
  lemma AddThenHit<K, V>(size: nat, recentSize: nat, evictSize: nat, ops: seq<Op<K, V>>, k: K, v: V)
    requires Sizes(size, recentSize, evictSize)
    ensures Peek(Put(After(size, recentSize, evictSize, ops), k, v), k) == Some(v)
  {
    hide After, Sound, Added, Removed, RoomFor;
    var c := After(size, recentSize, evictSize, ops);
    PutKeeps(c, k, v, Latest(ops));
    AddedFacts(c.size, c.frequent, k, v);
    if k !in c.frequent.items && k !in c.recent.items {
      RoomForKeeps(c, k, Latest(ops));
      AddedFacts(c.size, RoomFor(c, k).frequent, k, v);
      AddedFacts(c.size, RoomFor(c, k).recent, k, v);
    }
  }

  /** In every run, a removed key is gone from all three lists. */
  lemma RemoveForgets<K, V>(size: nat, recentSize: nat, evictSize: nat, ops: seq<Op<K, V>>, k: K)
    requires Sizes(size, recentSize, evictSize)
    ensures var r := Deleted(After(size, recentSize, evictSize, ops), k);
      k !in r.recent.items && k !in r.frequent.items && k !in r.recentEvict.items
  {
    hide After, Latest, Deleted;
    DeletedKeeps(After(size, recentSize, evictSize, ops), k, Latest(ops));
  }

  /** Exactly when an Add leaves the cache within its size: from within it, unless nothing can be
      evicted; with one entry too many, if it promotes a key into a full frequent list. */
  lemma SizeKeptIff<K, V>(c: Cache<K, V>, k: K, v: V, m: map<K, V>)
    requires Inv(c) && Agrees(c, m)
    ensures Put(c, k, v).Len() <= c.size <==>
      if c.Len() <= c.size
      then !(k !in c.recent.items && k !in c.frequent.items && Immovable(c, k in c.recentEvict.items))
      else k in c.recent.items && |c.frequent.order| == c.size
  {
    hide Sound, Added, Removed, RoomFor, Apart;
    if k in c.frequent.items {
      ApartLists(c, k);
      AddedFacts(c.size, c.frequent, k, v);
    } else if k in c.recent.items {
      PromotedKeeps(c, k, v, m);
      RemovedSound(c.recent, k);
      AddedFacts(c.size, c.frequent, k, v);
    } else {
      RoomForKeeps(c, k, m);
      NewEntryKeeps(RoomFor(c, k), k, v, m, k in c.recentEvict.items);
      if c.Len() > c.size {
        OverfullRoom(c, k);
      }
    }
  }

  lemma ApartLists<K, V>(c: Cache<K, V>, k: K)
    requires Apart(c) && k in c.frequent.items
    ensures k !in c.recent.items
  {}

  /** Room is made in an overfull cache without leaving the list full that the key will go to. */
  lemma OverfullRoom<K, V>(c: Cache<K, V>, k: K)
    requires Inv(c) && c.Len() == c.size + 1 && k !in c.recent.items && k !in c.frequent.items
    ensures var r := RoomFor(c, k);
      && (k in c.recentEvict.items ==> r.Len() == c.size && |r.frequent.order| < c.size)
      && (k !in c.recentEvict.items ==> r.Len() == c.size && |r.recent.order| < c.size)
  {
    hide Sound, Removed, Apart, Added;
  }

  /** With the whole size as the target for recent entries the bound does fail: the states of such a
      cache of size one to which 1, 2 and 1 again are added. */
  function Example(n: nat): (c: Cache<int, bool>)
    requires n <= 3
  {
    var none: Entries<int, bool> := Empty();
    match n
    case 0 => New(1, 1, 1)
    case 1 => Cache(1, 1, 1, Entries([1], map[1 := true]), none, Empty())
    case 2 => Cache(1, 1, 1, Entries([2], map[2 := true]), none, Entries([1], map[1 := ()]))
    case 3 => Cache(1, 1, 1, Entries([2], map[2 := true]), Entries([1], map[1 := true]), Empty())
  }

  lemma ExampleSteps()
    ensures Put(Example(0), 1, true) == Example(1)
    ensures Put(Example(1), 2, true) == Example(2)
    ensures Put(Example(2), 1, true) == Example(3)
  {
    assert Added(1, Example(0).recent, 1, true) == Example(1).recent;
    assert Dropped(Example(1).recent) == Example(0).recent;
    assert Added(1, Example(1).recentEvict, 1, ()) == Example(2).recentEvict;
    assert Added(1, Example(0).recent, 2, true) == Example(2).recent;
    assert Removed(Example(2).recentEvict, 1) == Example(3).recentEvict;
    assert Added(1, Example(2).frequent, 1, true) == Example(3).frequent;
  }

  lemma OverflowExample()
    ensures After(1, 1, 1, [Add(1, true), Add(2, true), Add(1, true)]).Len() == 2
  {
    hide Put, Inv, Agrees;
    var one, two: Op<int, bool> := Add(1, true), Add(2, true);
    ExampleSteps();
    assert After<int, bool>(1, 1, 1, []) == Example(0);
    assert [one][..0] == [] && After(1, 1, 1, [one]) == Example(1);
    assert [one, two][..1] == [one] && After(1, 1, 1, [one, two]) == Example(2);
    assert [one, two, one][..2] == [one, two] && After(1, 1, 1, [one, two, one]) == Example(3);
  }
}

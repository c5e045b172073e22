/** What the history of operations alone says about the state of the 2Q cache, and what one operation
    does to each of its lists. */
module TwoQueueHistory {
  import opened Common
  import opened Lru
  import opened CacheOps
  import opened Recency
  import opened TwoQueue

  ghost predicate Cached<K, V>(c: Cache<K, V>, k: K) {
    k in c.recent.items || k in c.frequent.items
  }

  /** Known: cached, or remembered as evicted. */
  ghost predicate Known<K, V>(c: Cache<K, V>, k: K) {
    Cached(c, k) || k in c.recentEvict.items
  }

  // ---------- where keys go

  lemma AbsentWithout<K, V>(c: Cache<K, V>, k: K)
    requires Inv(c)
    ensures k !in c.recent.items ==> k !in c.recent.order && Without(c.recent.order, k) == c.recent.order
    ensures k !in c.frequent.items ==> k !in c.frequent.order && Without(c.frequent.order, k) == c.frequent.order
    ensures k in c.recent.items ==> k in c.recent.order && k !in c.frequent.items
    ensures k in c.frequent.items ==> k in c.frequent.order
    ensures Distinct(c.recent.order) && Distinct(c.frequent.order)
  {
    OrderIsDomain(c.recent, k);
    OrderIsDomain(c.frequent, k);
  }

  /** Which entry is given up to make room: none when there is room; otherwise the oldest recent entry if
      the recent entries exceed their target, or meet it and the key is new, and the oldest frequent
      entry otherwise. */
  lemma RoomVictim<K, V>(c: Cache<K, V>, k: K)
    requires Inv(c) && !Cached(c, k)
    ensures var r, n1, n2 := RoomFor(c, k), |c.recent.order|, |c.frequent.order|;
      if c.Len() < c.size then r.recent == c.recent && r.frequent == c.frequent
      else if n1 > 0 && (n1 > c.recentSize || (n1 == c.recentSize && k !in c.recentEvict.items)) then
        && r.recent.order == c.recent.order[..n1 - 1] && r.frequent == c.frequent
        && r.recentEvict.order != [] && r.recentEvict.order[0] == c.recent.order[n1 - 1]
      else
        && r.recent == c.recent
        && r.frequent.order == (if n2 > 0 then c.frequent.order[..n2 - 1] else [])
    ensures RoomFor(c, k).recent.order <= c.recent.order && RoomFor(c, k).frequent.order <= c.frequent.order
  {
    hide Added, Sound, Apart, Removed;
    AbsentWithout(c, k);
    var x := if c.recent.order == [] then k else c.recent.order[|c.recent.order| - 1];
    if c.recent.order != [] {
      AddedPlaces(c.evictSize, c.recentEvict, x, ());
      RemovedFirst(Added(c.evictSize, c.recentEvict, x, ()), k);
    }
  }

  /** An added key that was known becomes the newest frequent entry, and one that was not becomes the
      newest recent entry; all others stay in order, and only the ends of the lists are lost. */
  lemma PutPlaces<K, V>(c: Cache<K, V>, k: K, v: V)
    requires Inv(c)
    ensures var r := Put(c, k, v);
      && (Known(c, k) ==>
          && r.frequent.order != [] && r.frequent.order[0] == k && r.frequent.order[1..] <= Without(c.frequent.order, k)
          && r.recent.order <= Without(c.recent.order, k))
      && (!Known(c, k) ==>
          && r.recent.order != [] && r.recent.order[0] == k && r.recent.order[1..] <= c.recent.order
          && r.frequent.order <= c.frequent.order)
  {
    hide RoomFor, Added, Apart, Agrees, Sound;
    AbsentWithout(c, k);
    if k in c.recent.items || k in c.frequent.items {
      AddedPlaces(c.size, c.frequent, k, v);
    } else {
      var m := CachedAs(c);
      RoomForKeeps(c, k, m);
      RoomVictim(c, k);
      var r := RoomFor(c, k);
      AbsentWithout(r, k);
      AddedPlaces(c.size, r.recent, k, v);
      AddedPlaces(c.size, r.frequent, k, v);
    }
  }

  /** A lookup that hits makes its key the newest frequent entry; one that misses changes nothing. */
  lemma GotPlaces<K, V>(c: Cache<K, V>, k: K)
    requires Inv(c)
    ensures var r := Got(c, k);
      && (Cached(c, k) ==>
          && r.frequent.order != [] && r.frequent.order[0] == k && r.frequent.order[1..] <= Without(c.frequent.order, k)
          && r.recent.order == Without(c.recent.order, k)
          && (c.Len() <= c.size ==> r.frequent.order == [k] + Without(c.frequent.order, k)))
      && (!Cached(c, k) ==> r == c)
      && r.recentEvict == c.recentEvict
  {
    hide Added, Apart, Sound;
    AbsentWithout(c, k);
    if k in c.frequent.items {
      var t := [k] + Without(c.frequent.order, k);
      assert t[1..] == Without(c.frequent.order, k);
    } else if k in c.recent.items {
      AddedPlaces(c.size, c.frequent, k, c.recent.items[k]);
    }
  }

  /** Which entry an Add of a key that is not cached gives up: none when there is room; otherwise the
      oldest recent entry if the recent entries exceed their target, or meet it and the key is new, and
      the oldest frequent entry otherwise. The key of an evicted recent entry is remembered. */
  lemma VictimRule<K, V>(c: Cache<K, V>, k: K, v: V)
    requires Inv(c) && !Cached(c, k)
    ensures var r, n1, n2 := Put(c, k, v), |c.recent.order|, |c.frequent.order|;
      if c.Len() < c.size then
        && (Known(c, k) ==> r.recent.order == c.recent.order && r.frequent.order == [k] + c.frequent.order)
        && (!Known(c, k) ==> r.recent.order == [k] + c.recent.order && r.frequent.order == c.frequent.order)
      else if n1 > 0 && (n1 > c.recentSize || (n1 == c.recentSize && !Known(c, k))) then
        && r.recent.order == (if Known(c, k) then c.recent.order[..n1 - 1] else [k] + c.recent.order[..n1 - 1])
        && r.recentEvict.order != [] && r.recentEvict.order[0] == c.recent.order[n1 - 1]
      else if n2 > 0 then
        r.frequent.order == if Known(c, k) then [k] + c.frequent.order[..n2 - 1] else c.frequent.order[..n2 - 1]
      else true
  {
    hide RoomFor, Added, Apart, Agrees, Sound;
    var m := CachedAs(c);
    RoomForKeeps(c, k, m);
    RoomVictim(c, k);
    var r := RoomFor(c, k);
    AbsentWithout(r, k);
    AddedPlaces(c.size, r.recent, k, v);
    AddedPlaces(c.size, r.frequent, k, v);
  }

  /** The number of entries after an Add, from the lists before it. */
  lemma CountAfterAdd<K, V>(c: Cache<K, V>, k: K, v: V)
    requires Inv(c)
    ensures Put(c, k, v).Len() ==
      if k in c.recent.items then (if |c.frequent.order| == c.size then c.Len() - 1 else c.Len())
      else if k in c.frequent.items then c.Len()
      else if c.Len() < c.size then c.Len() + 1
      else if Immovable(c, k in c.recentEvict.items) then c.Len() + 1
      else c.Len()
  {
    hide RoomFor, Added, Removed, Apart, Agrees, Sound;
    AbsentWithout(c, k);
    var m := CachedAs(c);
    if k in c.recent.items {
      RemovedSound(c.recent, k);
      AddedFacts(c.size, c.frequent, k, v);
    } else if k in c.frequent.items {
      AddedFacts(c.size, c.frequent, k, v);
    } else {
      RoomForKeeps(c, k, m);
      RoomVictim(c, k);
      var r := RoomFor(c, k);
      AddedFacts(c.size, r.recent, k, v);
      AddedFacts(c.size, r.frequent, k, v);
    }
  }

  // ---------- what history says

  ghost predicate Remembers<K, V>(c: Cache<K, V>, ops: seq<Op<K, V>>) {
    && (forall k :: k in c.recent.items ==> LastNamed(ops, k) >= 0 && ops[LastNamed(ops, k)].Add?)
    && (forall k :: k in c.recent.items ==> Uses(ops, k) >= 1)
    && (forall k :: k in c.frequent.items ==> Uses(ops, k) >= 2)
    && (forall k :: k in c.recentEvict.items ==> Uses(ops, k) >= 1)
    && NewestFirst(c.recent.order, ops) && NewestFirst(c.frequent.order, ops)
  }

  /** Nothing is known after an operation that was not before, except an added key. */
  lemma KnownBefore<K, V>(c: Cache<K, V>, op: Op<K, V>)
    requires Inv(c)
    ensures var r := Applied(c, op);
      && (forall x :: Known(r, x) ==> Known(c, x) || (op.Add? && x == op.k))
      && (forall x :: x in r.recent.items && !Names(op, x) ==> x in c.recent.items)
      && (forall x :: x in r.frequent.items && !Names(op, x) ==> x in c.frequent.items)
  {
    hide Inv, Put, Got, Deleted;
    match op {
      case Add(k, v) => PutKnown(c, k, v);
      case Get(k) => GotKnown(c, k);
      case Remove(k) => DeletedKnown(c, k);
      case Purge =>
    }
  }

  lemma RoomForKnown<K, V>(c: Cache<K, V>, k: K)
    requires Inv(c)
    ensures var r := RoomFor(c, k);
      && r.recent.items.Keys <= c.recent.items.Keys && r.frequent.items.Keys <= c.frequent.items.Keys
      && r.recentEvict.items.Keys <= c.recentEvict.items.Keys + c.recent.items.Keys
  {
    hide EnsuredSpace, Sound, Apart, Agrees;
    var m := CachedAs(c);
    EnsuredSpaceKeeps(c, true, m);
    EnsuredSpaceKeeps(c, false, m);
  }

  lemma PutKnown<K, V>(c: Cache<K, V>, k: K, v: V)
    requires Inv(c)
    ensures var r := Put(c, k, v);
      && (forall x :: Known(r, x) ==> Known(c, x) || x == k)
      && (forall x :: x in r.recent.items && x != k ==> x in c.recent.items)
      && (forall x :: x in r.frequent.items && x != k ==> x in c.frequent.items)
  {
    hide RoomFor, Added, Apart, Agrees, Sound;
    if k in c.recent.items || k in c.frequent.items {
      AddedFacts(c.size, c.frequent, k, v);
    } else {
      var m := CachedAs(c);
      RoomForKeeps(c, k, m);
      RoomForKnown(c, k);
      AddedFacts(c.size, RoomFor(c, k).recent, k, v);
      AddedFacts(c.size, RoomFor(c, k).frequent, k, v);
    }
  }

  lemma GotKnown<K, V>(c: Cache<K, V>, k: K)
    requires Inv(c)
    ensures var r := Got(c, k);
      && (forall x :: Known(r, x) ==> Known(c, x))
      && (forall x :: x in r.recent.items ==> x in c.recent.items)
      && (forall x :: x in r.frequent.items && x != k ==> x in c.frequent.items)
  {
    hide Added, Apart, Sound;
    if k !in c.frequent.items && k in c.recent.items {
      AddedFacts(c.size, c.frequent, k, c.recent.items[k]);
    }
  }

  lemma DeletedKnown<K, V>(c: Cache<K, V>, k: K)
    requires Inv(c)
    ensures var r := Deleted(c, k);
      && (forall x :: Known(r, x) <==> Known(c, x) && x != k)
      && (forall x :: x in r.recent.items ==> x in c.recent.items)
      && (forall x :: x in r.frequent.items ==> x in c.frequent.items)
      && r.recent.order == Without(c.recent.order, k) && r.frequent.order == Without(c.frequent.order, k)
  {
    hide Agrees, Inv;
    var m := CachedAs(c);
    DeletedKeeps(c, k, m);
    AbsentWithout(c, k);
  }

  lemma OrderRemembers<K, V>(c: Cache<K, V>, ops: seq<Op<K, V>>, op: Op<K, V>)
    requires Inv(c) && NewestFirst(c.recent.order, ops) && NewestFirst(c.frequent.order, ops)
    ensures NewestFirst(Applied(c, op).recent.order, ops + [op]) && NewestFirst(Applied(c, op).frequent.order, ops + [op])
  {
    hide Inv, Put, Got, Deleted, LastNamed, NewestFirst;
    var r, all := Applied(c, op), ops + [op];
    if op.Purge? {
      NoneOutOfOrder<K, V>(all);
    } else {
      var k := op.k;
      var s1, s2 := Without(c.recent.order, k), Without(c.frequent.order, k);
      NewestWithout(c.recent.order, k, ops);
      NewestWithout(c.frequent.order, k, ops);
      AbsentWithout(c, k);
      WithoutDistinct(c.recent.order, k);
      WithoutDistinct(c.frequent.order, k);
      NewestStep(s1, ops, op);
      NewestStep(s2, ops, op);
      match op {
        case Add(_, v) =>
          PutPlaces(c, k, v);
          if Known(c, k) {
            NewestTouched(s2, k, r.frequent.order, ops, op);
            NewestPrefix(s1, r.recent.order, all);
          } else {
            NewestTouched(s1, k, r.recent.order, ops, op);
            NewestPrefix(s2, r.frequent.order, all);
          }
        case Get(_) =>
          GotPlaces(c, k);
          if Cached(c, k) {
            NewestTouched(s2, k, r.frequent.order, ops, op);
          }
        case Remove(_) => DeletedKnown(c, k);
      }
    }
  }

  /** Where the key that an operation names ends up. */
  lemma NamedKey<K, V>(c: Cache<K, V>, op: Op<K, V>)
    requires Inv(c)
    ensures var r := Applied(c, op);
      && (op.Purge? ==> forall x :: !Known(r, x))
      && (op.Remove? ==> !Known(r, op.k))
      && (!op.Purge? && op.k in r.recent.items ==> op.Add? && !Known(c, op.k))
      && (!op.Purge? && op.k in r.frequent.items ==> Known(c, op.k))
  {
    hide Inv, Put, Got, Deleted;
    match op {
      case Add(k, v) =>
        PutPlaces(c, k, v);
        var m := CachedAs(c);
        PutKeeps(c, k, v, m);
        AbsentWithout(Put(c, k, v), k);
        AbsentWithout(c, k);
        WithoutDistinct(c.recent.order, k);
      case Get(k) =>
        GotPlaces(c, k);
        var m := CachedAs(c);
        GotKeeps(c, k, m);
        AbsentWithout(Got(c, k), k);
        AbsentWithout(c, k);
        WithoutDistinct(c.recent.order, k);
      case Remove(k) => DeletedKnown(c, k);
      case Purge =>
    }
  }

  lemma KeyRemembers<K, V>(c: Cache<K, V>, ops: seq<Op<K, V>>, op: Op<K, V>, k: K)
    requires Inv(c) && Remembers(c, ops)
    ensures var r, all := Applied(c, op), ops + [op];
      && (Known(r, k) ==> Uses(all, k) >= 1)
      && (k in r.recent.items ==> LastNamed(all, k) >= 0 && all[LastNamed(all, k)].Add?)
      && (k in r.frequent.items ==> Uses(all, k) >= 2)
  {
    hide Inv, Applied, LastNamed, Uses, NewestFirst;
    var r, all := Applied(c, op), ops + [op];
    KnownBefore(c, op);
    NamedKey(c, op);
    LastNamedStep(ops, op, k);
    LastNamedBound(ops, k);
    if k in r.recent.items && !Names(op, k) {
      assert k in c.recent.items && all[LastNamed(ops, k)] == ops[LastNamed(ops, k)];
    }
  }

  /** One operation keeps what the history says of keys and of their order. */
  lemma AppliedRemembers<K, V>(c: Cache<K, V>, ops: seq<Op<K, V>>, op: Op<K, V>)
    requires Inv(c) && Remembers(c, ops)
    ensures Remembers(Applied(c, op), ops + [op])
  {
    hide Inv, Applied, LastNamed, Uses;
    OrderRemembers(c, ops, op);
    var r, all := Applied(c, op), ops + [op];
    forall k | k in r.recent.items ensures Uses(all, k) >= 1 && LastNamed(all, k) >= 0 && all[LastNamed(all, k)].Add? {
      KeyRemembers(c, ops, op, k);
    }
    forall k | k in r.frequent.items ensures Uses(all, k) >= 2 {
      KeyRemembers(c, ops, op, k);
    }
    forall k | k in r.recentEvict.items ensures Uses(all, k) >= 1 {
      KeyRemembers(c, ops, op, k);
    }
  }

  lemma {:induction false} RunRemembers<K, V>(size: nat, recentSize: nat, evictSize: nat, ops: seq<Op<K, V>>)
    requires Sizes(size, recentSize, evictSize)
    ensures Remembers(After(size, recentSize, evictSize, ops), ops)
    decreases |ops|
  {
    hide Inv, Agrees, Applied, LastNamed, Uses;
    if ops == [] {
      assert After<K, V>(size, recentSize, evictSize, ops) == New(size, recentSize, evictSize);
    } else {
      var before, op := ops[..|ops| - 1], ops[|ops| - 1];
      RunRemembers(size, recentSize, evictSize, before);
      AppliedRemembers(After(size, recentSize, evictSize, before), before, op);
      assert before + [op] == ops;
    }
  }

  /** In every run the history alone tells recent from frequent: a recent entry was last named by its
      Add, and a frequent one has been added or looked up at least twice since it was last removed; and
      both lists are in order of last use. */
  lemma HistoryDecides<K, V>(size: nat, recentSize: nat, evictSize: nat, ops: seq<Op<K, V>>)
    requires Sizes(size, recentSize, evictSize)
    ensures var c := After(size, recentSize, evictSize, ops);
      && (forall k :: k in c.recent.items ==> LastNamed(ops, k) >= 0 && ops[LastNamed(ops, k)].Add?)
      && (forall k :: k in c.frequent.items ==> Uses(ops, k) >= 2)
      && (forall i, j :: 0 <= i < j < |c.recent.order| ==>
            LastNamed(ops, c.recent.order[i]) > LastNamed(ops, c.recent.order[j]))
      && (forall i, j :: 0 <= i < j < |c.frequent.order| ==>
            LastNamed(ops, c.frequent.order[i]) > LastNamed(ops, c.frequent.order[j]))
  {
    hide After, LastNamed, Uses;
    RunRemembers(size, recentSize, evictSize, ops);
  }

  /** In every run, what an Add evicts was used less recently than everything that stays in its list. */
  lemma EvictsLeastRecent<K, V>(size: nat, recentSize: nat, evictSize: nat, ops: seq<Op<K, V>>, k: K, v: V, x: K, y: K)
    requires Sizes(size, recentSize, evictSize) && x != k && y != k
    ensures var c := After(size, recentSize, evictSize, ops);
      var r := Put(c, k, v);
      && (x in c.recent.order && x !in r.recent.order && y in r.recent.order ==> LastNamed(ops, y) > LastNamed(ops, x))
      && (x in c.frequent.order && x !in r.frequent.order && y in r.frequent.order ==> LastNamed(ops, y) > LastNamed(ops, x))
  {
    hide After, Inv, Put, LastNamed, Uses;
    var c := After(size, recentSize, evictSize, ops);
    var r := Put(c, k, v);
    RunRemembers(size, recentSize, evictSize, ops);
    PutPlaces(c, k, v);
    AbsentWithout(c, k);
    EndOfList(c.recent.order, r.recent.order, k, ops, x, y);
    EndOfList(c.frequent.order, r.frequent.order, k, ops, x, y);
  }
}

/** What the history of operations alone says about the state of the ARC cache, and what one operation
    does to each of its lists. */
module ArcHistory {
  import opened Common
  import opened Lru
  import opened CacheOps
  import opened Recency
  import opened Arc

  // ---------- where keys go

  ghost predicate Cached<K, V>(c: Cache<K, V>, k: K) {
    k in c.t1.items || k in c.t2.items
  }

  /** Known: cached, or remembered as evicted. */
  ghost predicate Known<K, V>(c: Cache<K, V>, k: K) {
    Cached(c, k) || k in c.b1.items || k in c.b2.items
  }

  lemma ReplacedPlaces<K, V>(c: Cache<K, V>, flag: bool)
    ensures var r := Replaced(c, flag);
      && r.t1.order <= c.t1.order && r.t2.order <= c.t2.order && r.size == c.size && r.p == c.p
  {
    hide Added;
    DroppedPlaces(c.t1);
    DroppedPlaces(c.t2);
  }

  lemma RoomForPlaces<K, V>(c: Cache<K, V>, k: K)
    requires Inv(c)
    ensures var r := RoomFor(c, k); r.t1.order <= c.t1.order && r.t2.order <= c.t2.order
    ensures c.Len() < c.size ==> RoomFor(c, k).t1 == c.t1 && RoomFor(c, k).t2 == c.t2
  {
    hide Replaced, Removed, Dropped, Apart, Sound, Delta;
    if k in c.b1.items {
      ListHas(c.size, c.b1, k);
      ReplacedPlaces(GrownP(c), false);
    } else if k in c.b2.items {
      ListHas(c.size, c.b2, k);
      ReplacedPlaces(ShrunkP(c), true);
    } else {
      ReplacedPlaces(c, false);
    }
  }

  lemma AbsentWithout<K, V>(c: Cache<K, V>, k: K)
    requires Inv(c)
    ensures k !in c.t1.items ==> k !in c.t1.order && Without(c.t1.order, k) == c.t1.order
    ensures k !in c.t2.items ==> k !in c.t2.order && Without(c.t2.order, k) == c.t2.order
  {
    hide Apart;
    OrderIsDomain(c.t1, k);
    OrderIsDomain(c.t2, k);
  }

  /** An added key that was known becomes the newest frequent entry, and one that was not becomes the
      newest recent entry; all others stay in order, and only the ends of the lists are lost. */
  lemma PutPlaces<K, V>(c: Cache<K, V>, k: K, v: V)
    requires Inv(c)
    ensures var r := Put(c, k, v);
      && (Known(c, k) ==>
          && r.t2.order != [] && r.t2.order[0] == k && r.t2.order[1..] <= Without(c.t2.order, k)
          && r.t1.order <= Without(c.t1.order, k))
      && (!Known(c, k) ==>
          && r.t1.order != [] && r.t1.order[0] == k && r.t1.order[1..] <= c.t1.order
          && r.t2.order <= c.t2.order)
  {
    hide RoomFor, Added, Apart, Agrees, Sound;
    AbsentWithout(c, k);
    if k in c.t1.items || k in c.t2.items {
      AddedPlaces(c.size, c.t2, k, v);
    } else {
      PutIs(c, k, v);
      var m := CachedAs(c);
      RoomForKeeps(c, k, m);
      RoomForPlaces(c, k);
      var r := RoomFor(c, k);
      AbsentWithout(r, k);
      AddedPlaces(c.size, r.t1, k, v);
      AddedPlaces(c.size, r.t2, k, v);
    }
  }

  /** A lookup that hits makes its key the newest frequent entry; one that misses changes nothing. */
  lemma GotPlaces<K, V>(c: Cache<K, V>, k: K)
    requires Inv(c)
    ensures var r := Got(c, k);
      && (Cached(c, k) ==>
          && r.t2.order != [] && r.t2.order[0] == k && r.t2.order[1..] <= Without(c.t2.order, k)
          && r.t1.order == Without(c.t1.order, k)
          && (c.Len() <= c.size ==> r.t2.order == [k] + Without(c.t2.order, k)))
      && (!Cached(c, k) ==> r == c)
      && r.b1 == c.b1 && r.b2 == c.b2
  {
    hide Added, Apart, Sound;
    AbsentWithout(c, k);
    if k in c.t1.items {
      ListHas(c.size, c.t1, k);
      AddedPlaces(c.size, c.t2, k, c.t1.items[k]);
    } else if k in c.t2.items {
      var t := [k] + Without(c.t2.order, k);
      assert t[1..] == Without(c.t2.order, k);
    }
  }

  // ---------- what history says

  ghost predicate Remembers<K, V>(c: Cache<K, V>, ops: seq<Op<K, V>>) {
    && (forall k :: k in c.t1.items ==> LastNamed(ops, k) >= 0 && ops[LastNamed(ops, k)].Add?)
    && (forall k :: k in c.t1.items ==> Uses(ops, k) >= 1)
    && (forall k :: k in c.t2.items ==> Uses(ops, k) >= 2)
    && (forall k :: k in c.b1.items ==> Uses(ops, k) >= 1)
    && (forall k :: k in c.b2.items ==> Uses(ops, k) >= 1)
    && NewestFirst(c.t1.order, ops) && NewestFirst(c.t2.order, ops)
  }

  /** Sets of keys: nothing is known after an operation that was not before, except an added key. */
  lemma KnownBefore<K, V>(c: Cache<K, V>, op: Op<K, V>)
    requires Inv(c)
    ensures var r := Applied(c, op);
      && (forall x :: Known(r, x) ==> Known(c, x) || (op.Add? && x == op.k))
      && (forall x :: x in r.t1.items && !Names(op, x) ==> x in c.t1.items)
      && (forall x :: x in r.t2.items && !Names(op, x) ==> x in c.t2.items)
  {
    hide Inv, Put, Got, Deleted;
    match op {
      case Add(k, v) => PutKnown(c, k, v);
      case Get(k) => GotKnown(c, k);
      case Remove(k) => DeletedKnown(c, k);
      case Purge =>
    }
  }

  lemma RoomForKnown<K, V>(c: Cache<K, V>, k: K)
    requires Inv(c) && k !in c.t1.items && k !in c.t2.items
    ensures var r := RoomFor(c, k);
      && r.t1.items.Keys <= c.t1.items.Keys && r.t2.items.Keys <= c.t2.items.Keys
      && r.b1.items.Keys <= c.b1.items.Keys + c.t1.items.Keys
      && r.b2.items.Keys <= c.b2.items.Keys + c.t2.items.Keys
  {
    hide Agrees, Apart, ListOk, Dropped, MadeRoom, Delta;
    var m := CachedAs(c);
    if k in c.b1.items {
      ListHas(c.size, c.b1, k);
      var g := GrownP(c);
      AgreesEntries(c, g, m);
      ApartEntries(c, g);
      MadeRoomKeeps(g, false, m);
    } else if k in c.b2.items {
      ListHas(c.size, c.b2, k);
      var g := ShrunkP(c);
      AgreesEntries(c, g, m);
      ApartEntries(c, g);
      MadeRoomKeeps(g, true, m);
    } else {
      MadeRoomKeeps(c, false, m);
      GhostsKeep(MadeRoom(c, false), k, m);
    }
  }

  lemma PutKnown<K, V>(c: Cache<K, V>, k: K, v: V)
    requires Inv(c)
    ensures var r := Put(c, k, v);
      && (forall x :: Known(r, x) ==> Known(c, x) || x == k)
      && (forall x :: x in r.t1.items && x != k ==> x in c.t1.items)
      && (forall x :: x in r.t2.items && x != k ==> x in c.t2.items)
  {
    hide RoomFor, Added, Apart, Agrees, Sound;
    if k in c.t1.items || k in c.t2.items {
      AddedFacts(c.size, c.t2, k, v);
    } else {
      PutIs(c, k, v);
      var m := CachedAs(c);
      RoomForKeeps(c, k, m);
      RoomForKnown(c, k);
      AddedFacts(c.size, RoomFor(c, k).t1, k, v);
      AddedFacts(c.size, RoomFor(c, k).t2, k, v);
    }
  }

  lemma GotKnown<K, V>(c: Cache<K, V>, k: K)
    requires Inv(c)
    ensures var r := Got(c, k);
      && (forall x :: Known(r, x) ==> Known(c, x))
      && (forall x :: x in r.t1.items ==> x in c.t1.items)
      && (forall x :: x in r.t2.items && x != k ==> x in c.t2.items)
  {
    hide Added, Apart, Sound;
    if k in c.t1.items {
      AddedFacts(c.size, c.t2, k, c.t1.items[k]);
    }
  }

  lemma DeletedKnown<K, V>(c: Cache<K, V>, k: K)
    requires Inv(c)
    ensures var r := Deleted(c, k);
      && (forall x :: Known(r, x) <==> Known(c, x) && x != k)
      && (forall x :: x in r.t1.items ==> x in c.t1.items)
      && (forall x :: x in r.t2.items ==> x in c.t2.items)
      && r.t1.order == Without(c.t1.order, k) && r.t2.order == Without(c.t2.order, k)
  {
    hide Agrees, Inv;
    var m := CachedAs(c);
    DeletedKeeps(c, k, m);
    AbsentWithout(c, k);
    DeletedApart(c, k);
  }

  lemma DeletedApart<K, V>(c: Cache<K, V>, k: K)
    requires Inv(c)
    ensures k in c.t1.items ==> k !in c.t2.items
  {}

  /** One operation keeps what the history says of keys and of their order. */
  lemma AppliedRemembers<K, V>(c: Cache<K, V>, ops: seq<Op<K, V>>, op: Op<K, V>)
    requires Inv(c) && Remembers(c, ops)
    ensures Remembers(Applied(c, op), ops + [op])
  {
    hide Inv, Put, Got, Deleted, LastNamed, Uses;
    OrderRemembers(c, ops, op);
    KeysRemember(c, ops, op);
  }

  lemma OrderRemembers<K, V>(c: Cache<K, V>, ops: seq<Op<K, V>>, op: Op<K, V>)
    requires Inv(c) && NewestFirst(c.t1.order, ops) && NewestFirst(c.t2.order, ops)
    ensures NewestFirst(Applied(c, op).t1.order, ops + [op]) && NewestFirst(Applied(c, op).t2.order, ops + [op])
  {
    hide Inv, Put, Got, Deleted, LastNamed, Known, Cached, NewestFirst;
    var r, all := Applied(c, op), ops + [op];
    if op.Purge? {
      NoneOutOfOrder<K, V>(all);
    } else {
      var k := op.k;
      var s1, s2 := Without(c.t1.order, k), Without(c.t2.order, k);
      NewestWithout(c.t1.order, k, ops);
      NewestWithout(c.t2.order, k, ops);
      OrderDistinct(c);
      WithoutDistinct(c.t1.order, k);
      WithoutDistinct(c.t2.order, k);
      NewestStep(s1, ops, op);
      NewestStep(s2, ops, op);
      AbsentWithout(c, k);
      match op {
        case Add(_, v) =>
          PutPlaces(c, k, v);
          if Known(c, k) {
            NewestTouched(s2, k, r.t2.order, ops, op);
            NewestPrefix(s1, r.t1.order, all);
          } else {
            NotKnown(c, k);
            NewestTouched(s1, k, r.t1.order, ops, op);
            NewestPrefix(s2, r.t2.order, all);
          }
        case Get(_) =>
          GotPlaces(c, k);
          if Cached(c, k) {
            NewestTouched(s2, k, r.t2.order, ops, op);
          } else {
            NotCached(c, k);
          }
        case Remove(_) => DeletedKnown(c, k);
      }
    }
  }

  lemma OrderDistinct<K, V>(c: Cache<K, V>)
    requires Inv(c)
    ensures Distinct(c.t1.order) && Distinct(c.t2.order)
  {}

  lemma NotKnown<K, V>(c: Cache<K, V>, k: K)
    requires !Known(c, k)
    ensures k !in c.t1.items && k !in c.t2.items
  {}

  lemma NotCached<K, V>(c: Cache<K, V>, k: K)
    requires !Cached(c, k)
    ensures k !in c.t1.items && k !in c.t2.items
  {}

  lemma KeysRemember<K, V>(c: Cache<K, V>, ops: seq<Op<K, V>>, op: Op<K, V>)
    requires Inv(c) && Remembers(c, ops)
    ensures var r, all := Applied(c, op), ops + [op];
      && (forall k :: k in r.t1.items ==> LastNamed(all, k) >= 0 && all[LastNamed(all, k)].Add?)
      && (forall k :: k in r.t1.items ==> Uses(all, k) >= 1)
      && (forall k :: k in r.t2.items ==> Uses(all, k) >= 2)
      && (forall k :: k in r.b1.items ==> Uses(all, k) >= 1)
      && (forall k :: k in r.b2.items ==> Uses(all, k) >= 1)
  {
    hide Inv, Applied, LastNamed, Uses, Remembers;
    var r, all := Applied(c, op), ops + [op];
    forall k | k in r.t1.items ensures Uses(all, k) >= 1 && LastNamed(all, k) >= 0 && all[LastNamed(all, k)].Add? {
      KeyRemembers(c, ops, op, k);
    }
    forall k | k in r.t2.items ensures Uses(all, k) >= 2 {
      KeyRemembers(c, ops, op, k);
    }
    forall k | k in r.b1.items ensures Uses(all, k) >= 1 {
      KeyRemembers(c, ops, op, k);
    }
    forall k | k in r.b2.items ensures Uses(all, k) >= 1 {
      KeyRemembers(c, ops, op, k);
    }
  }

  lemma KeyRemembers<K, V>(c: Cache<K, V>, ops: seq<Op<K, V>>, op: Op<K, V>, k: K)
    requires Inv(c) && Remembers(c, ops)
    ensures var r, all := Applied(c, op), ops + [op];
      && (Known(r, k) ==> Uses(all, k) >= 1)
      && (k in r.t1.items ==> LastNamed(all, k) >= 0 && all[LastNamed(all, k)].Add?)
      && (k in r.t2.items ==> Uses(all, k) >= 2)
  {
    hide Inv, Applied, LastNamed, Uses, NewestFirst;
    var r, all := Applied(c, op), ops + [op];
    KnownBefore(c, op);
    NamedKey(c, op);
    LastNamedStep(ops, op, k);
    LastNamedBound(ops, k);
    if k in r.t1.items && !Names(op, k) {
      assert k in c.t1.items && all[LastNamed(ops, k)] == ops[LastNamed(ops, k)];
    }
  }

  /** Where the key that an operation names ends up. */
  lemma NamedKey<K, V>(c: Cache<K, V>, op: Op<K, V>)
    requires Inv(c)
    ensures var r := Applied(c, op);
      && (op.Purge? ==> forall x :: !Known(r, x))
      && (op.Remove? ==> !Known(r, op.k))
      && (!op.Purge? && op.k in r.t1.items ==> op.Add? && !Known(c, op.k))
      && (!op.Purge? && op.k in r.t2.items ==> Known(c, op.k))
  {
    hide Inv, Put, Got, Deleted;
    match op {
      case Add(k, v) =>
        PutPlaces(c, k, v);
        var m := CachedAs(c);
        PutKeeps(c, k, v, m);
        var r := Put(c, k, v);
        OrdersAndItems(r, k);
        OrdersAndItems(c, k);
        OrderDistinct(c);
        WithoutDistinct(c.t1.order, k);
      case Get(k) =>
        GotPlaces(c, k);
        var m := CachedAs(c);
        GotKeeps(c, k, m);
        OrdersAndItems(Got(c, k), k);
        OrderDistinct(c);
        WithoutDistinct(c.t1.order, k);
      case Remove(k) => DeletedKnown(c, k);
      case Purge =>
    }
  }

  lemma OrdersAndItems<K, V>(c: Cache<K, V>, k: K)
    requires Inv(c)
    ensures (k in c.t1.order <==> k in c.t1.items) && (k in c.t2.order <==> k in c.t2.items)
  {
    hide Apart;
    OrderIsDomain(c.t1, k);
    OrderIsDomain(c.t2, k);
  }

  lemma {:induction false} RunRemembers<K, V>(size: nat, ops: seq<Op<K, V>>)
    requires size > 0
    ensures Remembers(After(size, ops), ops)
    decreases |ops|
  {
    hide Inv, Agrees, Applied, LastNamed, Uses;
    if ops == [] {
      assert After<K, V>(size, ops) == New(size);
    } else {
      var before, op := ops[..|ops| - 1], ops[|ops| - 1];
      RunRemembers(size, before);
      AppliedRemembers(After(size, before), before, op);
      assert before + [op] == ops;
    }
  }

  /** In every run the history alone tells recent from frequent: a recent entry was last named by its
      Add, and a frequent one has been added or looked up at least twice since it was last removed; and
      both lists are in order of last use. */
  lemma HistoryDecides<K, V>(size: nat, ops: seq<Op<K, V>>)
    requires size > 0
    ensures var c := After(size, ops);
      && (forall k :: k in c.t1.items ==> LastNamed(ops, k) >= 0 && ops[LastNamed(ops, k)].Add?)
      && (forall k :: k in c.t2.items ==> Uses(ops, k) >= 2)
      && (forall i, j :: 0 <= i < j < |c.t1.order| ==> LastNamed(ops, c.t1.order[i]) > LastNamed(ops, c.t1.order[j]))
      && (forall i, j :: 0 <= i < j < |c.t2.order| ==> LastNamed(ops, c.t2.order[i]) > LastNamed(ops, c.t2.order[j]))
  {
    hide After, LastNamed, Uses;
    RunRemembers(size, ops);
  }

  /** In every run, what an Add evicts was used less recently than everything that stays in its list. */
  lemma EvictsLeastRecent<K, V>(size: nat, ops: seq<Op<K, V>>, k: K, v: V, x: K, y: K)
    requires size > 0 && x != k && y != k
    ensures var c, r := After(size, ops), Put(After(size, ops), k, v);
      && (x in c.t1.order && x !in r.t1.order && y in r.t1.order ==> LastNamed(ops, y) > LastNamed(ops, x))
      && (x in c.t2.order && x !in r.t2.order && y in r.t2.order ==> LastNamed(ops, y) > LastNamed(ops, x))
  {
    hide After, Inv, Put, LastNamed, Uses, Known;
    var c := After(size, ops);
    var r := Put(c, k, v);
    RunRemembers(size, ops);
    PutPlaces(c, k, v);
    AbsentWithout(c, k);
    if !Known(c, k) {
      NotKnown(c, k);
    }
    EndOfList(c.t1.order, r.t1.order, k, ops, x, y);
    EndOfList(c.t2.order, r.t2.order, k, ops, x, y);
  }

  // ---------- the learned preference

  function Max(a: int, b: int): (m: int) {
    if a >= b then a else b
  }

  function Min(a: int, b: int): (m: int) {
    if a <= b then a else b
  }

  /** Only a hit among the evicted keys moves p: a key evicted from the recent entries raises it and one
      evicted from the frequent entries lowers it, by the ratio of the other ghost list to its own but
      at least by one, within 0 and the size. */
  lemma GhostHitMovesP<K, V>(c: Cache<K, V>, op: Op<K, V>)
    requires Inv(c)
    ensures var hit := op.Add? && !Cached(c, op.k);
      Applied(c, op).p ==
      if hit && op.k in c.b1.items then
        assert |c.b1.order| > 0 by { ListHas(c.size, c.b1, op.k); }
        Min(c.size, c.p + Max(1, |c.b2.order| / |c.b1.order|))
      else if hit && op.k in c.b2.items then
        assert |c.b2.order| > 0 by { ListHas(c.size, c.b2, op.k); }
        Max(0, c.p - Max(1, |c.b1.order| / |c.b2.order|))
      else c.p
  {
    hide Added, Removed, Dropped, Apart, Sound, Delta, Replaced, Max;
    if op.Add? && !Cached(c, op.k) {
      var k := op.k;
      if k in c.b1.items {
        ListHas(c.size, c.b1, k);
        DeltaIs(|c.b1.order|, |c.b2.order|);
        ReplacedPlaces(GrownP(c), false);
      } else if k in c.b2.items {
        ListHas(c.size, c.b2, k);
        DeltaIs(|c.b2.order|, |c.b1.order|);
        MaxZero(c.p - Delta(|c.b2.order|, |c.b1.order|));
        ReplacedPlaces(ShrunkP(c), true);
      } else {
        ReplacedPlaces(c, false);
      }
    }
  }

  lemma DeltaIs(here: nat, there: nat)
    requires here > 0
    ensures Delta(here, there) == Max(1, there / here)
  {
    if there > here {
      assert there / here >= 1;
    } else if there < here {
      assert there / here == 0;
    }
  }

  lemma MaxZero(x: int)
    ensures Max(0, x) == if x <= 0 then 0 else x
  {}

  // ---------- what an Add evicts

  /** The number of entries after an Add, from the lists before it. */
  lemma CountAfterAdd<K, V>(c: Cache<K, V>, k: K, v: V)
    requires Inv(c)
    ensures Put(c, k, v).Len() ==
      if k in c.t1.items then (if |c.t2.order| == c.size then c.Len() - 1 else c.Len())
      else if k in c.t2.items then c.Len()
      else if c.Len() < c.size then c.Len() + 1
      else if c.Len() == c.size then (if Overflows(c, k) then c.size + 1 else c.size)
      else (if ComesBack(c, k) then c.size else c.size + 1)
  {
    hide Agrees, Apart, RoomFor, Added, Removed, Sound, Overflows, ComesBack;
    var m := CachedAs(c);
    SizeKeptIff(c, k, v);
    PutKeeps(c, k, v, m);
    if k in c.t1.items {
      RemovedSound(c.t1, k);
      ApartLists(c);
      AddedFacts(c.size, c.t2, k, v);
    } else if k in c.t2.items {
      AddedFacts(c.size, c.t2, k, v);
    } else {
      PutIs(c, k, v);
      RoomForKeeps(c, k, m);
      RoomForPlaces(c, k);
      AtMostOneLeaves(c, k);
      var r := RoomFor(c, k);
      AddedFacts(c.size, r.t1, k, v);
      AddedFacts(c.size, r.t2, k, v);
    }
  }

  lemma AtMostOneLeaves<K, V>(c: Cache<K, V>, k: K)
    requires Inv(c)
    ensures RoomFor(c, k).Len() >= c.Len() - 1
  {
    hide Added, Removed, Dropped, Apart, Sound, Delta;
    DroppedLen(c.t1);
    DroppedLen(c.t2);
    if k in c.b1.items {
      ListHas(c.size, c.b1, k);
    } else if k in c.b2.items {
      ListHas(c.size, c.b2, k);
    }
  }

  /** Making room takes the last key of one list and makes it the first of that list's ghost list. */
  lemma ReplacedVictim<K, V>(c: Cache<K, V>, flag: bool)
    requires Inv(c)
    ensures var r, n1, n2 := Replaced(c, flag), |c.t1.order|, |c.t2.order|;
      if n1 > 0 && (n1 > c.p || (n1 == c.p && flag)) then
        && r.t1.order == c.t1.order[..n1 - 1] && r.t2 == c.t2 && r.b2 == c.b2
        && r.b1.order != [] && r.b1.order[0] == c.t1.order[n1 - 1]
      else if n2 > 0 then
        && r.t2.order == c.t2.order[..n2 - 1] && r.t1 == c.t1 && r.b1 == c.b1
        && r.b2.order != [] && r.b2.order[0] == c.t2.order[n2 - 1]
      else r == c
  {
    hide Added, Apart, Sound;
    if FromRecent(c, flag) {
      AddedPlaces(c.size, c.b1, c.t1.order[|c.t1.order| - 1], ());
    } else if c.t2.order != [] {
      AddedPlaces(c.size, c.b2, c.t2.order[|c.t2.order| - 1], ());
    }
  }

  lemma TrimmedFirst<K, V>(c: Cache<K, V>)
    ensures var r := TrimmedGhosts(c);
      && (c.b1.order != [] && (|c.b1.order| > 1 || c.p < c.size) ==> r.b1.order != [] && r.b1.order[0] == c.b1.order[0])
      && (c.b2.order != [] && (|c.b2.order| > 1 || c.p > 0) ==> r.b2.order != [] && r.b2.order[0] == c.b2.order[0])
      && r.t1 == c.t1 && r.t2 == c.t2
  {}

  /** Which entry an Add of a key that is not cached gives up. With room left, none. Otherwise the oldest
      recent entry if there are more recent entries than p, or as many and the key was remembered as a
      frequent one; and the oldest frequent entry otherwise. The key of either is then the newest in its
      ghost list (unless a new key meets p = 0, when no evicted frequent key is remembered). */
  lemma VictimRule<K, V>(c: Cache<K, V>, k: K, v: V)
    requires Inv(c) && !Cached(c, k)
    ensures var r, n1, n2 := Put(c, k, v), |c.t1.order|, |c.t2.order|;
      if c.Len() < c.size then
        && (Known(c, k) ==> r.t1.order == c.t1.order && r.t2.order == [k] + c.t2.order)
        && (!Known(c, k) ==> r.t1.order == [k] + c.t1.order && r.t2.order == c.t2.order)
      else if n1 > 0 && (n1 > r.p || (n1 == r.p && k !in c.b1.items && k in c.b2.items)) then
        && r.t1.order == (if Known(c, k) then c.t1.order[..n1 - 1] else [k] + c.t1.order[..n1 - 1])
        && r.b1.order != [] && r.b1.order[0] == c.t1.order[n1 - 1]
      else if n2 > 0 then
        && r.t2.order == (if Known(c, k) then [k] + c.t2.order[..n2 - 1] else c.t2.order[..n2 - 1])
        && (Known(c, k) || c.p > 0 ==> r.b2.order != [] && r.b2.order[0] == c.t2.order[n2 - 1])
      else true
  {
    hide RoomFor, Added, Apart, Agrees, Sound, Removed;
    var m := CachedAs(c);
    PutIs(c, k, v);
    RoomForKeeps(c, k, m);
    RoomForPlaces(c, k);
    RoomVictim(c, k);
    GhostHitMovesP(c, Add(k, v));
    var r := RoomFor(c, k);
    AbsentWithout(r, k);
    AddedPlaces(c.size, r.t1, k, v);
    AddedPlaces(c.size, r.t2, k, v);
  }

  lemma RoomVictim<K, V>(c: Cache<K, V>, k: K)
    requires Inv(c) && !Cached(c, k)
    ensures var r, n1, n2 := RoomFor(c, k), |c.t1.order|, |c.t2.order|;
      c.Len() >= c.size ==>
      if n1 > 0 && (n1 > r.p || (n1 == r.p && k !in c.b1.items && k in c.b2.items)) then
        && r.t1.order == c.t1.order[..n1 - 1]
        && r.b1.order != [] && r.b1.order[0] == c.t1.order[n1 - 1]
      else if n2 > 0 then
        && r.t2.order == c.t2.order[..n2 - 1]
        && (Known(c, k) || c.p > 0 ==> r.b2.order != [] && r.b2.order[0] == c.t2.order[n2 - 1])
      else true
  {
    hide Replaced, Apart, Sound, Delta, Dropped, TrimmedGhosts, Removed;
    LastIsCached(c, k);
    if k in c.b1.items {
      ListHas(c.size, c.b1, k);
      var g := GrownP(c);
      ApartEntries(c, g);
      ReplacedVictim(g, false);
      ReplacedPlaces(g, false);
      RemovedFirst(Replaced(g, false).b1, k);
    } else if k in c.b2.items {
      ListHas(c.size, c.b2, k);
      var g := ShrunkP(c);
      ApartEntries(c, g);
      ReplacedVictim(g, true);
      ReplacedPlaces(g, true);
      RemovedFirst(Replaced(g, true).b2, k);
    } else {
      ReplacedVictim(c, false);
      TrimmedFirst(Replaced(c, false));
      ReplacedPlaces(c, false);
      TrimmedP(Replaced(c, false));
    }
  }

  lemma TrimmedP<K, V>(c: Cache<K, V>)
    ensures TrimmedGhosts(c).p == c.p
  {}

  lemma LastIsCached<K, V>(c: Cache<K, V>, k: K)
    requires Inv(c) && !Cached(c, k)
    ensures c.t1.order != [] ==> c.t1.order[|c.t1.order| - 1] != k
    ensures c.t2.order != [] ==> c.t2.order[|c.t2.order| - 1] != k
  {
    OrdersAndItems(c, k);
  }

  /** The Add of a new key keeps the ghost lists trim: neither grows beyond its share, size - p and p,
      and neither is cut below it. */
  lemma GhostsAreTrimmed<K, V>(c: Cache<K, V>, k: K, v: V)
    requires Inv(c) && !Known(c, k)
    ensures var r := Put(c, k, v);
      && Min(c.size - c.p, |c.b1.order|) <= |r.b1.order| <= Max(c.size - c.p, |c.b1.order|)
      && Min(c.p, |c.b2.order|) <= |r.b2.order| <= Max(c.p, |c.b2.order|)
  {
    hide Added, Dropped, Apart, Sound;
    var d := MadeRoom(c, false);
    if FromRecent(c, false) {
      AddedFacts(c.size, c.b1, c.t1.order[|c.t1.order| - 1], ());
    } else if c.t2.order != [] {
      AddedFacts(c.size, c.b2, c.t2.order[|c.t2.order| - 1], ());
    }
    DroppedLen(d.b1);
    DroppedLen(d.b2);
  }
}

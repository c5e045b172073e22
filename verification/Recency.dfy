/** What the history of operations says about a key, and lists kept in order of last use. */
module Recency {
  import opened Common
  import opened Lru
  import opened CacheOps

  predicate Names<K(==), V>(op: Op<K, V>, k: K) {
    !op.Purge? && op.k == k
  }

  /** The index of the last operation on a key; -1 when there is none. */
  function LastNamed<K(==), V>(ops: seq<Op<K, V>>, k: K): (i: int)
    ensures -1 <= i < |ops| && (i >= 0 ==> Names(ops[i], k))
    ensures forall j :: i < j < |ops| ==> !Names(ops[j], k)
  {
    if ops == [] then -1
    else if Names(ops[|ops| - 1], k) then |ops| - 1
    else LastNamed(ops[..|ops| - 1], k)
  }

  /** How often a key has been added or looked up since it was last removed. */
  function Uses<K(==), V>(ops: seq<Op<K, V>>, k: K): (n: nat) {
    if ops == [] then 0
    else
      var op, before := ops[|ops| - 1], ops[..|ops| - 1];
      if op.Purge? || op == Remove(k) then 0
      else if Names(op, k) then 1 + Uses(before, k)
      else Uses(before, k)
  }

  /** Newest first: every key was named later than those behind it. */
  ghost predicate NewestFirst<K, V>(s: seq<K>, ops: seq<Op<K, V>>) {
    forall i, j :: 0 <= i < j < |s| ==> LastNamed(ops, s[i]) > LastNamed(ops, s[j])
  }

  lemma LastNamedStep<K, V>(ops: seq<Op<K, V>>, op: Op<K, V>, k: K)
    ensures LastNamed(ops + [op], k) == if Names(op, k) then |ops| else LastNamed(ops, k)
    ensures Uses(ops + [op], k) ==
      if op.Purge? || op == Remove(k) then 0 else if Names(op, k) then 1 + Uses(ops, k) else Uses(ops, k)
  {
    assert (ops + [op])[..|ops|] == ops;
  }

  lemma {:induction false} NewestWithout<K, V>(s: seq<K>, k: K, ops: seq<Op<K, V>>)
    requires NewestFirst(s, ops)
    ensures NewestFirst(Without(s, k), ops)
    decreases |s|
  {
    hide LastNamed;
    if s != [] {
      assert NewestFirst(s[1..], ops);
      if s[0] != k {
        NewestWithout(s[1..], k, ops);
        NewestCons(s[0], s[1..], Without(s[1..], k), ops);
      }
    }
  }

  lemma NewestCons<K, V>(x: K, s: seq<K>, t: seq<K>, ops: seq<Op<K, V>>)
    requires NewestFirst([x] + s, ops) && NewestFirst(t, ops) && forall y :: y in t ==> y in s
    ensures NewestFirst([x] + t, ops)
  {
    hide LastNamed;
    forall y | y in s ensures LastNamed(ops, x) > LastNamed(ops, y) {
      var i :| 0 <= i < |s| && s[i] == y;
      assert ([x] + s)[i + 1] == y && ([x] + s)[0] == x;
    }
    var u := [x] + t;
    forall i, j | 0 <= i < j < |u| ensures LastNamed(ops, u[i]) > LastNamed(ops, u[j]) {
      assert u[j] == t[j - 1];
      if i > 0 {
        assert u[i] == t[i - 1];
      }
    }
  }

  /** Keys that an operation does not name keep their order. */
  lemma NewestStep<K, V>(s: seq<K>, ops: seq<Op<K, V>>, op: Op<K, V>)
    requires NewestFirst(s, ops) && forall k :: k in s ==> !Names(op, k)
    ensures NewestFirst(s, ops + [op])
  {
    hide LastNamed;
    forall i | 0 <= i < |s| ensures LastNamed(ops + [op], s[i]) == LastNamed(ops, s[i]) {
      LastNamedStep(ops, op, s[i]);
    }
  }

  /** The key that an operation names comes first. */
  lemma NewestTouched<K, V>(s: seq<K>, k: K, t: seq<K>, ops: seq<Op<K, V>>, op: Op<K, V>)
    requires NewestFirst(s, ops) && k !in s && Names(op, k)
    requires t != [] && t[0] == k && t[1..] <= s
    ensures NewestFirst(t, ops + [op])
  {
    hide LastNamed;
    NewestStep(s, ops, op);
    LastNamedStep(ops, op, k);
    forall i, j | 0 <= i < j < |t| ensures LastNamed(ops + [op], t[i]) > LastNamed(ops + [op], t[j]) {
      assert t[j] == t[1..][j - 1] == s[j - 1];
      if i > 0 {
        assert t[i] == t[1..][i - 1] == s[i - 1];
      } else {
        assert !Names(op, s[j - 1]);
        LastNamedStep(ops, op, s[j - 1]);
        LastNamedBound(ops, s[j - 1]);
      }
    }
  }

  lemma LastNamedBound<K, V>(ops: seq<Op<K, V>>, k: K)
    ensures LastNamed(ops, k) < |ops|
  {}

  lemma NewestPrefix<K, V>(s: seq<K>, t: seq<K>, ops: seq<Op<K, V>>)
    requires NewestFirst(s, ops) && t <= s
    ensures NewestFirst(t, ops)
  {
    hide LastNamed;
  }

  /** What a list has lost from its end was used less recently than what it keeps. */
  lemma LostIsOldest<K, V>(s: seq<K>, t: seq<K>, ops: seq<Op<K, V>>, x: K, y: K)
    requires NewestFirst(s, ops) && t <= s && x in s && x !in t && y in t
    ensures LastNamed(ops, y) > LastNamed(ops, x)
  {
    hide LastNamed;
    var i :| 0 <= i < |s| && s[i] == x;
    var j :| 0 <= j < |t| && t[j] == y;
    assert forall m :: 0 <= m < |t| ==> t[m] == s[m];
  }

  /** An addition puts its key first and keeps the others in order, dropping at most the last. */
  lemma AddedPlaces<K, V>(size: nat, l: Entries<K, V>, k: K, v: V)
    requires Sound(l) && size > 0 && |l.order| <= size
    ensures var r := Added(size, l, k, v);
      && r.order != [] && r.order[0] == k && r.order[1..] <= Without(l.order, k)
      && (k in l.items || |l.order| < size ==> r.order == [k] + Without(l.order, k))
  {
    WithoutDistinct(l.order, k);
    TouchedSound(l, k, v);
    var t := [k] + Without(l.order, k);
    assert t[1..] == Without(l.order, k);
    assert |t| > size ==> t[..|t| - 1][1..] == Without(l.order, k)[..|t| - 2];
  }

  lemma DroppedPlaces<K, V>(l: Entries<K, V>)
    ensures Dropped(l).order <= l.order
  {}

  lemma RemovedFirst<K, V>(l: Entries<K, V>, k: K)
    ensures l.order != [] && l.order[0] != k ==>
      Removed(l, k).order != [] && Removed(l, k).order[0] == l.order[0]
  {}

  lemma NoneOutOfOrder<K, V>(ops: seq<Op<K, V>>)
    ensures NewestFirst([], ops)
  {}

  /** A list that is given up from its end, apart from a key that moves. */
  lemma EndOfList<K, V>(s: seq<K>, t: seq<K>, k: K, ops: seq<Op<K, V>>, x: K, y: K)
    requires NewestFirst(s, ops) && x != k && y != k
    requires t <= Without(s, k) || (t != [] && t[0] == k && t[1..] <= Without(s, k))
    ensures x in s && x !in t && y in t ==> LastNamed(ops, y) > LastNamed(ops, x)
  {
    hide LastNamed;
    if x in s && x !in t && y in t {
      NewestWithout(s, k, ops);
      if t <= Without(s, k) {
        LostIsOldest(Without(s, k), t, ops, x, y);
      } else {
        assert [t[0]] + t[1..] == t;
        LostIsOldest(Without(s, k), t[1..], ops, x, y);
      }
    }
  }
}

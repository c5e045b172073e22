/** A value that may be missing, lists without duplicates, and facts about slices of sequences. */
module Common {
  datatype Option<+T> = None | Some(value: T)

  ghost predicate Distinct<T>(s: seq<T>) {
    forall i, j :: 0 <= i < j < |s| ==> s[i] != s[j]
  }

  lemma Regrouped<T>(a: seq<T>, b: seq<T>, c: seq<T>, d: seq<T>)
    ensures a + ((b + c) + d) == (a + b) + (c + d)
  {}

  lemma SliceOfTail<T>(t: seq<T>, k: nat, a: nat, b: nat)
    requires k <= |t| && a <= b <= |t| - k
    ensures t[k..][a..b] == t[k + a..k + b]
  {}

  lemma SliceOfSlice<T>(t: seq<T>, lo: nat, hi: nat, a: nat, b: nat)
    requires lo <= hi <= |t| && a <= b <= hi - lo
    ensures t[lo..hi][a..b] == t[lo + a..lo + b]
  {
    var u, v := t[lo..hi], t[lo + a..lo + b];
    forall x | 0 <= x < b - a ensures u[a..b][x] == v[x] {
      assert u[a..b][x] == u[a + x] == t[lo + (a + x)];
      assert v[x] == t[lo + a + x];
    }
  }
}

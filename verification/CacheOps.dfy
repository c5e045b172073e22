/** Operations on a cache, and the plain map that an unbounded cache would hold after them. */
module CacheOps {
  datatype Op<K, V> = Add(k: K, v: V) | Get(k: K) | Remove(k: K) | Purge

  function Recorded<K(==), V>(m: map<K, V>, op: Op<K, V>): (r: map<K, V>) {
    match op
    case Add(k, v) => m[k := v]
    case Get(k) => m
    case Remove(k) => m - {k}
    case Purge => map[]
  }

  /** For each key, the last value added since it was last removed. */
  function Latest<K(==), V>(ops: seq<Op<K, V>>): (m: map<K, V>) {
    if ops == [] then map[] else Recorded(Latest(ops[..|ops| - 1]), ops[|ops| - 1])
  }
}

/** Shared notions: optional values, reading a map, the lesser of two numbers. */
module Wrappers {
  /** `undefined` or `null` in the program, or a value. */
  datatype Option<+T> = None | Some(value: T) {
    function GetOr(default: T): T {
      match this
      case None => default
      case Some(v) => v
    }
  }

  function Lookup<K(==), T>(m: map<K, T>, k: K): Option<T> { if k in m then Some(m[k]) else None }

  /** Maps that read alike are one map. */
  lemma SameLookups<K, T>(a: map<K, T>, b: map<K, T>)
    requires forall k :: Lookup(a, k) == Lookup(b, k)
    ensures a == b
  {
    forall k ensures k in a <==> k in b { assert Lookup(a, k) == Lookup(b, k); }
    forall k | k in a ensures a[k] == b[k] { assert Lookup(a, k) == Lookup(b, k); }
  }

  function Min(a: nat, b: nat): nat { if a <= b then a else b }

  /** `Math.ceil(ms / 1000)`. */
  function CeilSeconds(ms: int): (s: int)
    ensures 1000 * (s - 1) < ms <= 1000 * s
  {
    (ms + 999) / 1000
  }
}

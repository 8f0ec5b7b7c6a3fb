/** JavaScript's `Map`: pairs with distinct keys, in the order in which the keys were inserted. */
module JsMap {
  import opened Wrappers

  type Entries<K, V> = seq<(K, V)>

  ghost predicate Valid<K, V>(m: Entries<K, V>) {
    forall i, j :: 0 <= i < j < |m| ==> m[i].0 != m[j].0
  }

  /** Where the key is, or the length. */
  function IndexOf<K(==), V>(m: Entries<K, V>, k: K): (i: nat)
    ensures i <= |m| && (i < |m| ==> m[i].0 == k)
    ensures forall j :: 0 <= j < i ==> m[j].0 != k
  {
    if m == [] then 0
    else if m[0].0 == k then 0
    else 1 + IndexOf(m[1..], k)
  }

  predicate Has<K(==), V>(m: Entries<K, V>, k: K) { IndexOf(m, k) < |m| }

  function Get<K(==), V>(m: Entries<K, V>, k: K): Option<V> {
    if Has(m, k) then Some(m[IndexOf(m, k)].1) else None
  }

  /** A new key goes to the end; a present one keeps its place. */
  function Set<K(==), V>(m: Entries<K, V>, k: K, v: V): Entries<K, V> {
    if Has(m, k) then m[IndexOf(m, k) := (k, v)] else m + [(k, v)]
  }

  function Delete<K(==), V>(m: Entries<K, V>, k: K): Entries<K, V> {
    if Has(m, k) then m[..IndexOf(m, k)] + m[IndexOf(m, k) + 1..] else m
  }

  ghost function Keys<K, V>(m: Entries<K, V>): (r: set<K>)
    ensures forall k :: k in r ==> exists i :: 0 <= i < |m| && m[i].0 == k
    ensures forall i :: 0 <= i < |m| ==> m[i].0 in r
  {
    set p | p in m :: p.0
  }

  /** The map it stands for. */
  ghost function ToMap<K, V>(m: Entries<K, V>): (r: map<K, V>)
    ensures forall k :: k in r ==> Has(m, k)
    ensures forall i :: 0 <= i < |m| ==> m[i].0 in r
  {
    map k | k in Keys(m) && Has(m, k) :: m[IndexOf(m, k)].1
  }

  lemma GetIs<K, V>(m: Entries<K, V>, k: K)
    ensures Get(m, k) == if k in ToMap(m) then Some(ToMap(m)[k]) else None
  {}

  lemma IndexIs<K, V>(m: Entries<K, V>, i: nat)
    requires Valid(m) && i < |m|
    ensures IndexOf(m, m[i].0) == i && ToMap(m)[m[i].0] == m[i].1
  {}

  lemma SetIs<K, V>(m: Entries<K, V>, k: K, v: V)
    requires Valid(m)
    ensures Valid(Set(m, k, v)) && ToMap(Set(m, k, v)) == ToMap(m)[k := v]
  {
    var r, i := Set(m, k, v), IndexOf(m, k);
    forall j | 0 <= j < |r| ensures r[j] == (if j == i then (k, v) else m[j]) && (j < |m| ==> r[j].0 == m[j].0) {}
    SetMap(m, k, v);
  }

  lemma SetMap<K, V>(m: Entries<K, V>, k: K, v: V)
    requires Valid(m) && Valid(Set(m, k, v))
    ensures ToMap(Set(m, k, v)) == ToMap(m)[k := v]
  {
    var r, i := Set(m, k, v), IndexOf(m, k);
    forall j | 0 <= j < |r| ensures r[j].0 in ToMap(m)[k := v] && ToMap(m)[k := v][r[j].0] == r[j].1 {
      if j < |m| && j != i { IndexIs(m, j); }
    }
    var after := ToMap(m)[k := v];
    forall q | q in after ensures exists j :: 0 <= j < |r| && r[j].0 == q {
      assert r[IndexOf(m, q)].0 == q;
    }
    SameMap(r, after);
  }

  /** A map with the pairs of the entries and no other keys is what the entries stand for. */
  lemma SameMap<K, V>(m: Entries<K, V>, r: map<K, V>)
    requires Valid(m)
    requires forall j :: 0 <= j < |m| ==> m[j].0 in r && r[m[j].0] == m[j].1
    requires forall k :: k in r ==> exists j :: 0 <= j < |m| && m[j].0 == k
    ensures ToMap(m) == r
  {
    forall k | k in r ensures k in ToMap(m) {
      var j :| 0 <= j < |m| && m[j].0 == k;
    }
  }

  lemma DeleteValid<K, V>(m: Entries<K, V>, k: K)
    requires Valid(m)
    ensures Valid(Delete(m, k)) && !Has(Delete(m, k), k)
    ensures forall p :: p in Delete(m, k) <==> p in m && p.0 != k
  {
    var i := IndexOf(m, k);
    if i < |m| {
      var r := Delete(m, k);
      assert m == m[..i] + [m[i]] + m[i + 1..];
      forall p | p in m && p.0 != k ensures p in r {
        var h :| 0 <= h < |m| && m[h] == p;
        assert r[if h < i then h else h - 1] == p;
      }
    }
  }

  lemma DeleteIs<K, V>(m: Entries<K, V>, k: K)
    requires Valid(m)
    ensures Valid(Delete(m, k)) && ToMap(Delete(m, k)) == ToMap(m) - {k}
  {
    DeleteValid(m, k);
    var r := Delete(m, k);
    forall j | 0 <= j < |r| ensures r[j].0 in ToMap(m) - {k} && (ToMap(m) - {k})[r[j].0] == r[j].1 {
      assert r[j] in m;
      var h :| 0 <= h < |m| && m[h] == r[j];
      IndexIs(m, h);
    }
    var after := ToMap(m) - {k};
    forall q | q in after ensures exists j :: 0 <= j < |r| && r[j].0 == q {
      assert m[IndexOf(m, q)] in r;
    }
    SameMap(r, ToMap(m) - {k});
  }

  lemma {:induction false} SizeIs<K, V>(m: Entries<K, V>)
    requires Valid(m)
    ensures |ToMap(m)| == |m|
    decreases |m|
  {
    if m == [] {
      assert ToMap(m) == map[];
    } else {
      var front, last := m[..|m| - 1], m[|m| - 1];
      SizeIs(front);
      LastIsNew(m);
      Appended(front, last.0, last.1);
    }
  }

  lemma LastIsNew<K, V>(m: Entries<K, V>)
    requires Valid(m) && m != []
    ensures !Has(m[..|m| - 1], m[|m| - 1].0) && m == m[..|m| - 1] + [(m[|m| - 1].0, m[|m| - 1].1)]
  {
    var front := m[..|m| - 1];
    assert forall j :: 0 <= j < |front| ==> front[j] == m[j];
  }

  lemma Appended<K, V>(m: Entries<K, V>, k: K, v: V)
    requires Valid(m) && !Has(m, k)
    ensures ToMap(m + [(k, v)]) == ToMap(m)[k := v] && |ToMap(m + [(k, v)])| == |ToMap(m)| + 1
  {
    SetIs(m, k, v);
    assert k !in ToMap(m);
  }
}

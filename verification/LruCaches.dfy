/**
Bounded `Map`s kept in order of last use, as the result caches of the sanitizer and the per-key counters of
the statistics use them: a use deletes the key and sets it again, and when the map is over its bound the
first key goes.
*/
module LruCaches {
  import opened Wrappers
  import opened JsMap

  // ----- What such a map should hold -----

  function Index(keys: seq<string>, k: string): (i: nat)
    ensures i <= |keys| && (i < |keys| ==> keys[i] == k)
    ensures forall j :: 0 <= j < i ==> keys[j] != k
  {
    if keys == [] then 0 else if keys[0] == k then 0 else 1 + Index(keys[1..], k)
  }

  function Without(keys: seq<string>, k: string): seq<string> {
    var i := Index(keys, k);
    if i < |keys| then keys[..i] + keys[i + 1..] else keys
  }

  /** The distinct inputs in order of their last use. */
  function ByLastUse(inputs: seq<string>): seq<string> {
    if inputs == [] then []
    else Without(ByLastUse(inputs[..|inputs| - 1]), inputs[|inputs| - 1]) + [inputs[|inputs| - 1]]
  }

  function Suffix(keys: seq<string>, max: nat): seq<string> {
    if |keys| <= max then keys else keys[|keys| - max..]
  }

  /** The `max` most recently used distinct inputs. */
  function Recent(inputs: seq<string>, max: nat): seq<string> { Suffix(ByLastUse(inputs), max) }

  function Occurrences(inputs: seq<string>, k: string): nat {
    if inputs == [] then 0
    else Occurrences(inputs[..|inputs| - 1], k) + if inputs[|inputs| - 1] == k then 1 else 0
  }

  /** Where a key last entered the map: the last use of it that did not find it there. */
  function EntryOf(inputs: seq<string>, k: string, max: nat): (e: nat)
    ensures e <= |inputs|
  {
    if inputs == [] then 0
    else
      var front := inputs[..|inputs| - 1];
      if inputs[|inputs| - 1] == k && k !in Recent(front, max) then |front| else EntryOf(front, k, max)
  }

  /** Position `p` is the last use of `k`. */
  predicate LastUse(inputs: seq<string>, k: string, p: nat) {
    p < |inputs| && inputs[p] == k && forall r :: p < r < |inputs| ==> inputs[r] != k
  }

  // ----- The operations on the map -----

  function KeysOf<V>(m: Entries<string, V>): (r: seq<string>)
    ensures |r| == |m| && forall i :: 0 <= i < |r| ==> r[i] == m[i].0
  {
    seq(|m|, i requires 0 <= i < |m| => m[i].0)
  }

  /** `map.delete(key); map.set(key, value)`. */
  function Touch<V>(m: Entries<string, V>, k: string, v: V): Entries<string, V> {
    JsMap.Set(JsMap.Delete(m, k), k, v)
  }

  /** `if (map.size > max) map.delete(map.keys().next().value)`. */
  function Evict<V>(m: Entries<string, V>, max: nat): Entries<string, V> {
    if |m| > max then JsMap.Delete(m, m[0].0) else m
  }

  function Use<V>(m: Entries<string, V>, k: string, v: V, max: nat): Entries<string, V> { Evict(Touch(m, k, v), max) }

  // ----- Why they agree -----

  predicate NoRepeats(keys: seq<string>) {
    forall i, j :: 0 <= i < j < |keys| ==> keys[i] != keys[j]
  }

  lemma IndexAt(keys: seq<string>, i: nat)
    requires NoRepeats(keys) && i < |keys|
    ensures Index(keys, keys[i]) == i
  {}

  lemma WithoutNoRepeats(keys: seq<string>, k: string)
    requires NoRepeats(keys)
    ensures NoRepeats(Without(keys, k)) && k !in Without(keys, k)
    ensures forall q :: q != k ==> (q in Without(keys, k) <==> q in keys)
  {
    var i, r := Index(keys, k), Without(keys, k);
    if i < |keys| {
      assert forall j :: 0 <= j < |r| ==> r[j] == keys[if j < i then j else j + 1];
      assert keys == keys[..i] + [k] + keys[i + 1..];
    }
  }

  lemma {:induction false} ByLastUseNoRepeats(inputs: seq<string>)
    ensures NoRepeats(ByLastUse(inputs))
    ensures forall q :: q in ByLastUse(inputs) <==> q in inputs
  {
    if inputs != [] {
      var front, last := inputs[..|inputs| - 1], inputs[|inputs| - 1];
      ByLastUseNoRepeats(front);
      WithoutNoRepeats(ByLastUse(front), last);
      assert inputs == front + [last];
    }
  }

  /** What was used later stands later. */
  lemma {:induction false} InOrderOfUse(inputs: seq<string>, i: nat, j: nat, p: nat, q: nat)
    requires i < j < |ByLastUse(inputs)|
    requires LastUse(inputs, ByLastUse(inputs)[i], p) && LastUse(inputs, ByLastUse(inputs)[j], q)
    ensures p < q
  {
    var front, last := inputs[..|inputs| - 1], inputs[|inputs| - 1];
    var keys := ByLastUse(front);
    hide ByLastUse, Without, LastUse;
    assert inputs == front + [last];
    OneMoreUse(front, last, i);
    OneMoreUse(front, last, j);
    if j == |Without(keys, last)| {
      LastIsLatest(front, last, ByLastUse(inputs)[i], p, q);
    } else {
      StillLast(front, last, ByLastUse(inputs)[i], p);
      StillLast(front, last, ByLastUse(inputs)[j], q);
      InOrderOfUse(front, OldPosition(keys, last, i), OldPosition(keys, last, j), p, q);
    }
  }

  /** Where the keys of the inputs with one more come from. */
  lemma OneMoreUse(front: seq<string>, last: string, i: nat)
    requires i < |ByLastUse(front + [last])|
    ensures var keys, all := ByLastUse(front), ByLastUse(front + [last]);
            && i <= |Without(keys, last)| && |all| == |Without(keys, last)| + 1
            && (i == |Without(keys, last)| ==> all[i] == last)
            && (i < |Without(keys, last)| ==>
                  all[i] != last && OldPosition(keys, last, i) < |keys| && keys[OldPosition(keys, last, i)] == all[i])
  {
    assert (front + [last])[..|front|] == front;
    var rest := Without(ByLastUse(front), last);
    LastIsApart(front, last);
    if i < |rest| {
      OldIndex(ByLastUse(front), last, i);
      assert rest[i] in rest;
    }
  }

  lemma LastIsApart(front: seq<string>, last: string)
    ensures last !in Without(ByLastUse(front), last)
  {
    ByLastUseNoRepeats(front);
    WithoutNoRepeats(ByLastUse(front), last);
  }

  lemma LastIsLatest(front: seq<string>, last: string, k: string, p: nat, q: nat)
    requires k != last && LastUse(front + [last], k, p) && LastUse(front + [last], last, q)
    ensures p < q
  {
    assert (front + [last])[|front|] == last;
  }

  lemma StillLast(front: seq<string>, last: string, k: string, p: nat)
    requires k != last && LastUse(front + [last], k, p)
    ensures LastUse(front, k, p)
  {
    assert forall r :: 0 <= r < |front| ==> (front + [last])[r] == front[r];
  }

  function OldPosition(keys: seq<string>, k: string, i: nat): nat { if i < Index(keys, k) then i else i + 1 }

  lemma OldIndex(keys: seq<string>, k: string, i: nat)
    requires i < |Without(keys, k)|
    ensures OldPosition(keys, k, i) < |keys| && keys[OldPosition(keys, k, i)] == Without(keys, k)[i]
  {}

  /** A key among the last elements is found there; one that is not leaves them alone. */
  lemma IndexInSuffix(keys: seq<string>, k: string, d: nat)
    requires NoRepeats(keys) && d <= |keys|
    ensures d <= Index(keys, k) < |keys| ==> Index(keys[d..], k) == Index(keys, k) - d
    ensures Index(keys, k) < d || Index(keys, k) == |keys| ==> Index(keys[d..], k) == |keys| - d
  {
    var i, h := Index(keys, k), Index(keys[d..], k);
    assert forall j :: 0 <= j < |keys| - d ==> keys[d..][j] == keys[d + j];
    if d <= i < |keys| { assert keys[d..][i - d] == k; }
  }

  lemma DropPast(a: seq<string>, b: seq<string>, n: nat)
    requires |a| <= n <= |a| + |b|
    ensures (a + b)[n..] == b[n - |a|..]
  {}

  lemma DropWithin(a: seq<string>, b: seq<string>, n: nat)
    requires n <= |a|
    ensures (a + b)[n..] == a[n..] + b
  {}

  lemma DropTwice(a: seq<string>, m: nat, n: nat)
    requires m + n <= |a|
    ensures a[m..][n..] == a[m + n..]
  {}

  /** The end of a list after a use of a key that is not among its last elements. */
  lemma EndAfterUse(keys: seq<string>, k: string, d: nat)
    requires d < |keys| && (Index(keys, k) < d || Index(keys, k) == |keys|)
    ensures var r := Without(keys, k) + [k]; |r| >= |keys| - d && r[|r| - (|keys| - d)..] == keys[d + 1..] + [k]
  {
    hide Index;
    var i := Index(keys, k);
    if i < d {
      DropPast(keys[..i], keys[i + 1..], d);
      DropTwice(keys, i + 1, d - i);
      DropWithin(Without(keys, k), [k], d);
    } else {
      DropWithin(keys, [k], d + 1);
    }
  }

  lemma StepOutside(keys: seq<string>, k: string, max: nat)
    requires 0 < max < |keys| && (Index(keys, k) < |keys| - max || Index(keys, k) == |keys|)
    requires Index(keys[|keys| - max..], k) == max
    ensures Suffix(Without(keys, k) + [k], max) == Suffix(Without(Suffix(keys, max), k) + [k], max)
  {
    hide Index, Without;
    var s := keys[|keys| - max..];
    EndAfterUse(keys, k, |keys| - max);
    EndAfterUse(s, k, 0);
    DropTwice(keys, |keys| - max, 1);
  }

  lemma {:induction false} StepInSuffix(keys: seq<string>, k: string, max: nat)
    requires 0 < max < |keys| && |keys| - max <= Index(keys, k) < |keys|
    requires Index(keys[|keys| - max..], k) == Index(keys, k) - (|keys| - max)
    ensures Suffix(Without(keys, k) + [k], max) == Suffix(Without(Suffix(keys, max), k) + [k], max)
  {
    hide Index;
    var i, d := Index(keys, k), |keys| - max;
    assert keys[..i] == keys[..d] + keys[d..][..i - d];
    assert keys[i + 1..] == keys[d..][i - d + 1..];
    assert Suffix(Without(keys, k) + [k], max) == Without(keys[d..], k) + [k];
  }

  /** Using a key and keeping the last `max` is using it among the last `max`. */
  lemma SuffixStep(keys: seq<string>, k: string, max: nat)
    requires NoRepeats(keys) && max > 0
    ensures Suffix(Without(keys, k) + [k], max) == Suffix(Without(Suffix(keys, max), k) + [k], max)
  {
    hide NoRepeats, Index, Without;
    if |keys| > max {
      IndexInSuffix(keys, k, |keys| - max);
      if |keys| - max <= Index(keys, k) < |keys| { StepInSuffix(keys, k, max); } else { StepOutside(keys, k, max); }
    }
  }

  lemma SameIndex<V>(m: Entries<string, V>, k: string)
    requires Valid(m)
    ensures IndexOf(m, k) == Index(KeysOf(m), k) && NoRepeats(KeysOf(m))
    ensures Has(m, k) <==> k in KeysOf(m)
  {
    var i, h := IndexOf(m, k), Index(KeysOf(m), k);
    if i < |m| { IndexAt(KeysOf(m), i); }
  }

  lemma DeletedKeys<V>(m: Entries<string, V>, k: string)
    requires Valid(m)
    ensures KeysOf(JsMap.Delete(m, k)) == Without(KeysOf(m), k)
  {
    SameIndex(m, k);
  }

  lemma AppendedKeys<V>(m: Entries<string, V>, k: string, v: V)
    requires k !in ToMap(m)
    ensures KeysOf(JsMap.Set(m, k, v)) == KeysOf(m) + [k]
  {}

  lemma TouchIs<V>(m: Entries<string, V>, k: string, v: V)
    requires Valid(m)
    ensures Valid(Touch(m, k, v)) && KeysOf(Touch(m, k, v)) == Without(KeysOf(m), k) + [k]
    ensures ToMap(Touch(m, k, v)) == ToMap(m)[k := v]
  {
    hide JsMap.Delete, JsMap.Set, JsMap.Valid, ToMap, Without, KeysOf;
    DeleteIs(m, k);
    DeletedKeys(m, k);
    var deleted := JsMap.Delete(m, k);
    SetIs(deleted, k, v);
    AppendedKeys(deleted, k, v);
  }

  lemma EvictIs<V>(m: Entries<string, V>, max: nat)
    requires Valid(m) && |m| <= max + 1
    ensures Valid(Evict(m, max)) && KeysOf(Evict(m, max)) == Suffix(KeysOf(m), max)
    ensures forall k :: k in ToMap(Evict(m, max)) ==> k in ToMap(m) && ToMap(Evict(m, max))[k] == ToMap(m)[k]
  {
    if |m| > max {
      DeleteIs(m, m[0].0);
      DeletedKeys(m, m[0].0);
      assert Index(KeysOf(m), m[0].0) == 0;
    }
  }

  /** One use keeps the map's keys the most recent distinct inputs, in order of last use, and changes the
      value of that key only. */
  lemma UseIs<V>(m: Entries<string, V>, inputs: seq<string>, k: string, v: V, max: nat)
    requires Valid(m) && max > 0 && KeysOf(m) == Recent(inputs, max)
    ensures var r := Use(m, k, v, max);
            && Valid(r) && KeysOf(r) == Recent(inputs + [k], max) && Get(r, k) == Some(v)
            && forall q :: q != k && Has(r, q) ==> Get(r, q) == Get(m, q)
  {
    hide Touch, Evict, JsMap.Valid, ToMap, Without, Index, ByLastUse, NoRepeats, Get, Has;
    UsedKeys(m, inputs, k, v, max);
    UsedValues(m, inputs, k, v, max);
  }

  lemma UsedKeys<V>(m: Entries<string, V>, inputs: seq<string>, k: string, v: V, max: nat)
    requires Valid(m) && max > 0 && KeysOf(m) == Recent(inputs, max)
    ensures Valid(Use(m, k, v, max)) && KeysOf(Use(m, k, v, max)) == Recent(inputs + [k], max)
    ensures Valid(Touch(m, k, v)) && |Touch(m, k, v)| <= max + 1
  {
    hide Touch, Evict, JsMap.Valid, ToMap, Index, NoRepeats;
    assert (inputs + [k])[..|inputs|] == inputs;
    ByLastUseNoRepeats(inputs);
    SuffixStep(ByLastUse(inputs), k, max);
    TouchIs(m, k, v);
    EvictIs(Touch(m, k, v), max);
  }

  lemma UsedValues<V>(m: Entries<string, V>, inputs: seq<string>, k: string, v: V, max: nat)
    requires Valid(m) && max > 0 && KeysOf(m) == Recent(inputs, max)
    ensures Get(Use(m, k, v, max), k) == Some(v)
    ensures forall q :: q != k && Has(Use(m, k, v, max), q) ==> Get(Use(m, k, v, max), q) == Get(m, q)
  {
    hide Touch, Evict, JsMap.Valid, Without, Index, ByLastUse, NoRepeats;
    var r := Use(m, k, v, max);
    UsedKeys(m, inputs, k, v, max);
    TouchIs(m, k, v);
    EvictIs(Touch(m, k, v), max);
    LastOfRecent(inputs, k, max);
    assert KeysOf(r)[|r| - 1] == k;
    SameIndex(r, k);
    forall q | Has(r, q) ensures Get(r, q) == if q == k then Some(v) else Get(m, q) {
      GetIs(r, q);
      GetIs(m, q);
    }
  }

  lemma LastOfRecent(inputs: seq<string>, k: string, max: nat)
    requires max > 0
    ensures var r := Recent(inputs + [k], max); |r| > 0 && r[|r| - 1] == k
  {}

  // ----- Counts -----

  /** The uses of a key since it last entered the map. */
  function CountSinceEntry(inputs: seq<string>, k: string, max: nat): nat {
    Occurrences(inputs[EntryOf(inputs, k, max)..], k)
  }

  /** A use counts one more for a key that is there, starts at one for a key that is not, and leaves the
      other counts alone. */
  lemma CountStep(inputs: seq<string>, k: string, q: string, max: nat)
    ensures CountSinceEntry(inputs + [k], q, max)
         == if q != k then CountSinceEntry(inputs, q, max)
            else if k in Recent(inputs, max) then CountSinceEntry(inputs, k, max) + 1 else 1
  {
    hide Recent;
    var after, e := inputs + [k], EntryOf(inputs, q, max);
    assert after[..|inputs|] == inputs;
    if q == k && k !in Recent(inputs, max) {
      assert EntryOf(after, q, max) == |inputs|;
      assert after[|inputs|..] == [k] && Occurrences([k][..0], k) == 0;
    } else {
      assert EntryOf(after, q, max) == e;
      assert after[e..] == inputs[e..] + [k];
      assert (inputs[e..] + [k])[..|inputs[e..]|] == inputs[e..];
    }
  }
}

/** The sanitizer's cached cleaning of keys and namespaces. */
module Sanitize {
  import opened Wrappers
  import opened JsMap
  import opened LruCaches

  /** What replacing all matches of one pattern by nothing does to a string. */
  type Pattern = string -> string

  function ApplyPatterns(value: string, patterns: seq<Pattern>): string {
    if patterns == [] then value
    else patterns[|patterns| - 1](ApplyPatterns(value, patterns[..|patterns| - 1]))
  }

  /** The value itself when no pattern is enabled. */
  function Clean(value: string, patterns: Option<seq<Pattern>>): string {
    match patterns
    case Some(ps) => ApplyPatterns(value, ps)
    case None => value
  }

  /** The strings before, between and after the patterns, each what the next pattern makes of the one before. */
  ghost predicate Steps(value: string, patterns: seq<Pattern>, steps: seq<string>, r: string) {
    && |steps| == |patterns| + 1 && steps[0] == value && steps[|patterns|] == r
    && forall i :: 0 <= i < |patterns| ==> steps[i + 1] == patterns[i](steps[i])
  }

  method RunPatterns(value: string, patterns: seq<Pattern>) returns (r: string, ghost steps: seq<string>)
    ensures r == ApplyPatterns(value, patterns) && Steps(value, patterns, steps, r)
  {
    r, steps := value, [value];
    for i := 0 to |patterns|
      invariant r == ApplyPatterns(value, patterns[..i])
      invariant |steps| == i + 1 && steps[0] == value && steps[i] == r
      invariant forall j :: 0 <= j < i ==> steps[j + 1] == patterns[j](steps[j])
    {
      assert patterns[..i + 1][..i] == patterns[..i];
      r := patterns[i](r);
      steps := steps + [r];
    }
    assert patterns[..|patterns|] == patterns;
  }

  lemma NothingToClean(values: seq<string>)
    ensures forall i :: 0 <= i < |values| ==> Clean(values[i], None) == values[i]
  {}

  const CACHE_MAX: nat := 10_000

  /** The cache holds, in order of last use, exactly the most recent distinct inputs, each with its result. */
  ghost predicate Holds(cache: Entries<string, string>, inputs: seq<string>, patterns: Option<seq<Pattern>>) {
    && JsMap.Valid(cache) && KeysOf(cache) == Recent(inputs, CACHE_MAX)
    && forall k :: Has(cache, k) ==> Get(cache, k) == Some(Clean(k, patterns))
  }

  /** One cached call: the uncached result, and the input is now the most recently used. */
  method CleanCached(cache: Entries<string, string>, value: string, patterns: seq<Pattern>, ghost inputs: seq<string>)
    returns (result: string, r: Entries<string, string>)
    requires Holds(cache, inputs, Some(patterns))
    ensures result == ApplyPatterns(value, patterns)
    ensures Holds(r, inputs + [value], Some(patterns))
  {
    UseIs(cache, inputs, value, ApplyPatterns(value, patterns), CACHE_MAX);
    if Has(cache, value) {
      result := Get(cache, value).value;
      r := JsMap.Delete(cache, value);
      r := JsMap.Set(r, value, result);
      Bounded(cache, inputs, value, result);
    } else {
      ghost var steps;
      result, steps := RunPatterns(value, patterns);
      r := JsMap.Set(cache, value, result);
      if |r| > CACHE_MAX { r := JsMap.Delete(r, r[0].0); }
    }
  }

  /** However many inputs there were, a cache holds at most ten thousand. */
  lemma CacheIsBounded(cache: Entries<string, string>, inputs: seq<string>, patterns: Option<seq<Pattern>>)
    requires Holds(cache, inputs, patterns)
    ensures |cache| <= 10_000
  {}

  /** A hit never has to evict. */
  lemma Bounded(cache: Entries<string, string>, inputs: seq<string>, k: string, v: string)
    requires JsMap.Valid(cache) && KeysOf(cache) == Recent(inputs, CACHE_MAX) && Has(cache, k)
    ensures Touch(cache, k, v) == Use(cache, k, v, CACHE_MAX)
  {
    DeleteIs(cache, k);
    assert |JsMap.Delete(cache, k)| == |cache| - 1;
  }

  class KeyvSanitize {
    var keyPatterns: Option<seq<Pattern>>
    var namespacePatterns: Option<seq<Pattern>>
    var cacheKeys: Entries<string, string>
    var cacheNamespaces: Entries<string, string>
    /** What was looked up in each cache since it was last cleared. */
    ghost var keyInputs: seq<string>
    ghost var namespaceInputs: seq<string>

    ghost predicate Valid()
      reads this
    {
      Holds(cacheKeys, keyInputs, keyPatterns) && Holds(cacheNamespaces, namespaceInputs, namespacePatterns)
    }

    constructor ()
      ensures Valid() && keyPatterns == None && namespacePatterns == None
    {
      keyPatterns, namespacePatterns := None, None;
      cacheKeys, cacheNamespaces := [], [];
      keyInputs, namespaceInputs := [], [];
    }

    method UpdateOptions(keys: Option<seq<Pattern>>, namespace: Option<seq<Pattern>>)
      modifies this
      ensures Valid() && keyPatterns == keys && namespacePatterns == namespace
      ensures keyInputs == [] && namespaceInputs == []
    {
      keyPatterns, namespacePatterns := keys, namespace;
      ClearCache();
    }

    method ClearCache()
      modifies this`cacheKeys, this`cacheNamespaces, this`keyInputs, this`namespaceInputs
      ensures Valid() && keyInputs == [] && namespaceInputs == []
    {
      cacheKeys, cacheNamespaces := [], [];
      keyInputs, namespaceInputs := [], [];
    }

    method CleanKey(key: string) returns (result: string)
      requires Valid()
      modifies this`cacheKeys, this`keyInputs
      ensures Valid() && result == Clean(key, keyPatterns)
      ensures keyInputs == old(keyInputs) + if keyPatterns.Some? then [key] else []
    {
      if keyPatterns.None? { return key; }
      result, cacheKeys := CleanCached(cacheKeys, key, keyPatterns.value, keyInputs);
      keyInputs := keyInputs + [key];
    }

    method CleanKeys(keys: seq<string>) returns (results: seq<string>)
      requires Valid()
      modifies this`cacheKeys, this`keyInputs
      ensures Valid() && |results| == |keys| && forall i :: 0 <= i < |keys| ==> results[i] == Clean(keys[i], keyPatterns)
      ensures keyInputs == old(keyInputs) + if keyPatterns.Some? then keys else []
    {
      hide Holds, Clean;
      if keyPatterns.None? {
        NothingToClean(keys);
        return keys;
      }
      results := [];
      for i := 0 to |keys|
        invariant Valid() && |results| == i && forall j :: 0 <= j < i ==> results[j] == Clean(keys[j], keyPatterns)
        invariant keyInputs == old(keyInputs) + keys[..i]
      {
        var result := CleanKey(keys[i]);
        results := results + [result];
      }
    }

    method CleanNamespace(ns: string) returns (result: string)
      requires Valid()
      modifies this`cacheNamespaces, this`namespaceInputs
      ensures Valid() && result == Clean(ns, namespacePatterns)
      ensures namespaceInputs == old(namespaceInputs) + if namespacePatterns.Some? then [ns] else []
    {
      if namespacePatterns.None? { return ns; }
      result, cacheNamespaces := CleanCached(cacheNamespaces, ns, namespacePatterns.value, namespaceInputs);
      namespaceInputs := namespaceInputs + [ns];
    }
  }
}

/** The statistics' counters. */
module Stats {
  import opened JsMap
  import opened LruCaches

  datatype Kind = Hit | Miss | Write | Removal | Failure

  /** The map holds, in order of last use, the most recent distinct keys, each with the number of its
      increments since it last entered. */
  ghost predicate Counts(m: Entries<string, nat>, inputs: seq<string>, max: nat) {
    && JsMap.Valid(m) && KeysOf(m) == Recent(inputs, max)
    && forall i :: 0 <= i < |m| ==> m[i].1 == CountSinceEntry(inputs, m[i].0, max)
  }

  predicate IsKind(kind: Kind) { true }

  function ForEach<T>(x: T): (r: map<Kind, T>)
    ensures forall kind: Kind :: kind in r && r[kind] == x
  {
    map kind: Kind | IsKind(kind) :: x
  }

  function BuildKeyEventName(namespace: string, key: string): string {
    if namespace != "" && key != "" then namespace + ":" + key else key
  }

  class KeyvStats {
    const maxEntries: int
    var totals: map<Kind, nat>
    var keyMaps: map<Kind, Entries<string, nat>>
    /** The keys counted since the last reset. */
    ghost var inputs: map<Kind, seq<string>>

    ghost predicate Valid()
      reads this
    {
      forall kind: Kind ::
        kind in totals && kind in keyMaps && kind in inputs && Tracks(keyMaps[kind], inputs[kind])
    }

    /** Without a positive bound nothing is tracked. */
    ghost predicate Tracks(m: Entries<string, nat>, seen: seq<string>) {
      if maxEntries > 0 then Counts(m, seen, maxEntries) else m == [] && seen == []
    }

    constructor (maxEntries: int)
      ensures Valid() && this.maxEntries == maxEntries && forall kind: Kind :: totals[kind] == 0 && inputs[kind] == []
    {
      this.maxEntries := maxEntries;
      totals, keyMaps, inputs := ForEach(0), ForEach([]), ForEach([]);
    }

    method Reset()
      modifies this
      ensures Valid() && forall kind: Kind :: totals[kind] == 0 && inputs[kind] == []
    {
      totals, keyMaps, inputs := ForEach(0), ForEach([]), ForEach([]);
    }

    method IncrementKeys(m: Entries<string, nat>, compositeKey: string, ghost seen: seq<string>) returns (r: Entries<string, nat>)
      requires Tracks(m, seen)
      ensures Tracks(r, if maxEntries <= 0 || compositeKey == "" then seen else seen + [compositeKey])
    {
      hide Counts;
      if maxEntries <= 0 || compositeKey == "" { return m; }
      var current := Get(m, compositeKey).GetOr(0);
      CountsStep(m, seen, compositeKey, current + 1, maxEntries);
      r := SetRecent(m, compositeKey, current + 1, maxEntries);
    }

    /** `map.delete; map.set`, and the first key goes when the map is over its bound. */
    method SetRecent(m: Entries<string, nat>, k: string, v: nat, max: nat) returns (r: Entries<string, nat>)
      ensures r == Use(m, k, v, max)
    {
      r := JsMap.Delete(m, k);
      r := JsMap.Set(r, k, v);
      if |r| > max { r := JsMap.Delete(r, r[0].0); }
    }

    lemma CountsStep(m: Entries<string, nat>, seen: seq<string>, k: string, n: nat, max: nat)
      requires max > 0 && Counts(m, seen, max) && n == Get(m, k).GetOr(0) + 1
      ensures Counts(Use(m, k, n, max), seen + [k], max)
    {
      hide Use, Recent, CountSinceEntry, JsMap.Valid;
      var r := Use(m, k, n, max);
      UseIs(m, seen, k, n, max);
      forall i | 0 <= i < |r| ensures r[i].1 == CountSinceEntry(seen + [k], r[i].0, max) {
        CountStep(seen, k, r[i].0, max);
        ValueAt(m, seen, k, max);
        ValueAt(m, seen, r[i].0, max);
        SameIndex(r, k);
        IndexIs(r, i);
        if r[i].0 != k { assert Get(r, r[i].0) == Get(m, r[i].0); }
      }
    }

    lemma ValueAt(m: Entries<string, nat>, seen: seq<string>, k: string, max: nat)
      requires Counts(m, seen, max)
      ensures Get(m, k).GetOr(0) == if k in Recent(seen, max) then CountSinceEntry(seen, k, max) else 0
      ensures Get(m, k).Some? <==> k in Recent(seen, max)
    {
      SameIndex(m, k);
    }

    /** A telemetry event: the total rises, and the key's count. */
    method On(kind: Kind, namespace: string, key: string)
      requires Valid()
      modifies this
      ensures Valid() && totals == old(totals)[kind := old(totals)[kind] + 1]
      ensures inputs == if maxEntries <= 0 || key == "" then old(inputs)
                        else old(inputs)[kind := old(inputs)[kind] + [if namespace == "" then key else namespace + ":" + key]]
    {
      hide Counts;
      totals := totals[kind := totals[kind] + 1];
      var compositeKey := BuildKeyEventName(namespace, key);
      assert compositeKey == if namespace == "" || key == "" then key else namespace + ":" + key;
      hide BuildKeyEventName;
      var r := IncrementKeys(keyMaps[kind], compositeKey, inputs[kind]);
      keyMaps := keyMaps[kind := r];
      if maxEntries > 0 && compositeKey != "" { inputs := inputs[kind := inputs[kind] + [compositeKey]]; }
    }
  }
}

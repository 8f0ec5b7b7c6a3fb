/**
The in-memory adapter: a namespace's keys, prefixed, in a `Map` that other adapters may share, with expired
entries removed when they are met.  Each adapter refines a map of its own that is never reaped: its reads
show that map's entries which are not past their deadline.
*/
module MemoryAdapter {
  import opened Wrappers
  import opened JsMap

  datatype Entry<V> = Entry(value: V, expires: Option<int>)

  datatype Input<V> = Input(key: string, value: V, expires: Option<int>)

  /** Past its deadline: `expires !== undefined && now > expires`. */
  predicate Past<V>(e: Entry<V>, now: int) { e.expires.Some? && now > e.expires.value }

  function FullKey(prefix: string, key: string): string { prefix + key }

  lemma FullKeyInjective(prefix: string, a: string, b: string)
    requires FullKey(prefix, a) == FullKey(prefix, b)
    ensures a == b
  {
    assert a == FullKey(prefix, a)[|prefix|..] && b == FullKey(prefix, b)[|prefix|..];
  }

  /** What a read at `now` finds. */
  function Live<V>(spec: map<string, Entry<V>>, key: string, now: int): Option<V> {
    if key in spec && !Past(spec[key], now) then Some(spec[key].value) else None
  }

  /** What a read at `now` shows of the map: an entry up to and at its deadline. */
  ghost predicate Shows<V>(spec: map<string, Entry<V>>, key: string, now: int, value: Option<V>) {
    value == if key in spec && (spec[key].expires == None || now <= spec[key].expires.value) then Some(spec[key].value) else None
  }

  lemma LiveShows<V>(spec: map<string, Entry<V>>, now: int)
    ensures forall key :: Shows(spec, key, now, Live(spec, key, now))
  {}

  /** The cell of a key holds the map's entry, unless that is past its deadline and gone. */
  ghost predicate AgreesAt<V>(spec: map<string, Entry<V>>, cells: map<string, Entry<V>>, prefix: string, clock: int, k: string) {
    var cell, entry := Lookup(cells, FullKey(prefix, k)), Lookup(spec, k);
    cell == entry || (cell.None? && entry.Some? && Past(entry.value, clock))
  }

  ghost predicate Agrees<V>(spec: map<string, Entry<V>>, cells: map<string, Entry<V>>, prefix: string, clock: int) {
    forall k :: AgreesAt(spec, cells, prefix, clock, k)
  }

  /** Only cells under the prefix differ. */
  ghost predicate SameAt<V>(prefix: string, before: map<string, Entry<V>>, after: map<string, Entry<V>>, q: string) {
    !(prefix <= q) ==> Lookup(before, q) == Lookup(after, q)
  }

  ghost predicate OnlyUnder<V>(prefix: string, before: map<string, Entry<V>>, after: map<string, Entry<V>>) {
    forall q :: SameAt(prefix, before, after, q)
  }

  lemma OnlyUnderTwice<V>(prefix: string, a: map<string, Entry<V>>, b: map<string, Entry<V>>, c: map<string, Entry<V>>)
    requires OnlyUnder(prefix, a, b) && OnlyUnder(prefix, b, c)
    ensures OnlyUnder(prefix, a, c)
  {
    forall q ensures SameAt(prefix, a, c, q) { assert SameAt(prefix, a, b, q) && SameAt(prefix, b, c, q); }
  }

  lemma AgreesLater<V>(spec: map<string, Entry<V>>, cells: map<string, Entry<V>>, prefix: string, clock: int, now: int)
    requires Agrees(spec, cells, prefix, clock) && clock <= now
    ensures Agrees(spec, cells, prefix, now) && OnlyUnder(prefix, cells, cells)
  {
    forall k ensures AgreesAt(spec, cells, prefix, now, k) { assert AgreesAt(spec, cells, prefix, clock, k); }
  }

  lemma OneKey<V>(cells: map<string, Entry<V>>, after: map<string, Entry<V>>, prefix: string, key: string)
    requires forall q :: q != FullKey(prefix, key) ==> Lookup(after, q) == Lookup(cells, q)
    ensures OnlyUnder(prefix, cells, after)
    ensures forall k :: k != key ==> Lookup(after, FullKey(prefix, k)) == Lookup(cells, FullKey(prefix, k))
  {
    assert prefix <= FullKey(prefix, key);
    forall k | k != key ensures FullKey(prefix, k) != FullKey(prefix, key) {
      if FullKey(prefix, k) == FullKey(prefix, key) { FullKeyInjective(prefix, k, key); }
    }
  }

  lemma AgreesSet<V>(spec: map<string, Entry<V>>, cells: map<string, Entry<V>>, prefix: string, clock: int,
                                        key: string, e: Entry<V>)
    requires Agrees(spec, cells, prefix, clock)
    ensures Agrees(spec[key := e], cells[FullKey(prefix, key) := e], prefix, clock)
    ensures OnlyUnder(prefix, cells, cells[FullKey(prefix, key) := e])
  {
    var later, after := spec[key := e], cells[FullKey(prefix, key) := e];
    OneKey(cells, after, prefix, key);
    forall k ensures AgreesAt(later, after, prefix, clock, k) {
      assert AgreesAt(spec, cells, prefix, clock, k);
    }
  }

  lemma AgreesDelete<V>(spec: map<string, Entry<V>>, cells: map<string, Entry<V>>, prefix: string, clock: int,
                                           key: string)
    requires Agrees(spec, cells, prefix, clock)
    ensures Agrees(spec - {key}, cells - {FullKey(prefix, key)}, prefix, clock)
    ensures OnlyUnder(prefix, cells, cells - {FullKey(prefix, key)})
    ensures FullKey(prefix, key) in cells && Past(cells[FullKey(prefix, key)], clock) ==>
              Agrees(spec, cells - {FullKey(prefix, key)}, prefix, clock)
  {
    var after := cells - {FullKey(prefix, key)};
    OneKey(cells, after, prefix, key);
    forall k ensures AgreesAt(spec - {key}, after, prefix, clock, k) { assert AgreesAt(spec, cells, prefix, clock, k); }
    if FullKey(prefix, key) in cells && Past(cells[FullKey(prefix, key)], clock) {
      forall k ensures AgreesAt(spec, after, prefix, clock, k) { assert AgreesAt(spec, cells, prefix, clock, k); }
    }
  }

  lemma AgreesHere<V>(spec: map<string, Entry<V>>, cells: map<string, Entry<V>>, prefix: string, clock: int, k: string)
    requires Agrees(spec, cells, prefix, clock)
    ensures AgreesAt(spec, cells, prefix, clock, k)
  {}

  lemma LiveIsThere<V>(spec: map<string, Entry<V>>, cells: map<string, Entry<V>>, prefix: string, clock: int, k: string)
    requires AgreesAt(spec, cells, prefix, clock, k)
    ensures Live(spec, k, clock).Some? ==> FullKey(prefix, k) in cells
    ensures FullKey(prefix, k) in cells ==> k in spec
  {}

  lemma Cleared<V>(before: map<string, Entry<V>>, after: map<string, Entry<V>>, prefix: string, clock: int)
    requires forall q :: Lookup(after, q) == if prefix <= q then None else Lookup(before, q)
    ensures Agrees(map[], after, prefix, clock) && OnlyUnder(prefix, before, after)
  {
    forall k ensures AgreesAt(map[], after, prefix, clock, k) { assert prefix <= FullKey(prefix, k); }
  }

  /** The cells under a prefix, by their keys without it. */
  ghost function Existing<V>(cells: map<string, Entry<V>>, prefix: string): map<string, Entry<V>> {
    map k | k in (set q | q in cells && prefix <= q :: q[|prefix|..]) && FullKey(prefix, k) in cells :: cells[FullKey(prefix, k)]
  }

  lemma ExistingAgrees<V>(cells: map<string, Entry<V>>, prefix: string, clock: int)
    ensures Agrees(Existing(cells, prefix), cells, prefix, clock)
  {
    forall k ensures AgreesAt(Existing(cells, prefix), cells, prefix, clock, k) {
      assert prefix <= FullKey(prefix, k) && FullKey(prefix, k)[|prefix|..] == k;
    }
  }

  // ----- Two adapters on one store -----

  predicate Incomparable(p: string, q: string) { !(p <= q) && !(q <= p) }

  /** What an adapter does leaves another one's map alone when neither prefix begins the other. */
  lemma OthersUnaffected<V>(spec: map<string, Entry<V>>, before: map<string, Entry<V>>,
                                               after: map<string, Entry<V>>, mine: string, theirs: string, clock: int)
    requires Incomparable(mine, theirs) && OnlyUnder(mine, before, after)
    requires Agrees(spec, before, theirs, clock)
    ensures Agrees(spec, after, theirs, clock)
  {
    forall k ensures AgreesAt(spec, after, theirs, clock, k) {
      assert AgreesAt(spec, before, theirs, clock, k);
      if mine <= FullKey(theirs, k) { BothBegin(mine, theirs, FullKey(theirs, k)); }
      assert SameAt(mine, before, after, FullKey(theirs, k));
    }
  }

  lemma BothBegin(p: string, q: string, s: string)
    requires p <= s && q <= s
    ensures !Incomparable(p, q)
  {
    assert p == s[..|p|] && q == s[..|q|];
    if |p| <= |q| { assert s[..|q|][..|p|] == s[..|p|]; } else { assert s[..|p|][..|q|] == s[..|q|]; }
  }

  /** Two prefixes have a key in common exactly when one begins the other. */
  lemma SharedKeys(p: string, q: string)
    ensures (exists a, b :: FullKey(p, a) == FullKey(q, b)) <==> !Incomparable(p, q)
  {
    if Incomparable(p, q) {
      forall a, b ensures FullKey(p, a) != FullKey(q, b) {
        assert p <= FullKey(p, a) && q <= FullKey(q, b);
        if p <= FullKey(q, b) { BothBegin(p, q, FullKey(q, b)); }
      }
    } else if p <= q {
      assert FullKey(p, q[|p|..]) == FullKey(q, "");
    } else {
      assert FullKey(p, "") == FullKey(q, p[|q|..]);
    }
  }

  function PrefixOf(namespace: string, separator: string): string {
    if namespace == "" then "" else namespace + separator
  }

  /** Different non-empty namespaces without the separator character are apart. */
  lemma NamespacesApart(a: string, b: string, c: char)
    requires a != "" && b != "" && a != b && c !in a && c !in b
    ensures Incomparable(PrefixOf(a, [c]), PrefixOf(b, [c]))
  {
    if a + [c] <= b + [c] { SameNamespace(a, b, c); }
    if b + [c] <= a + [c] { SameNamespace(b, a, c); }
  }

  lemma SameNamespace(a: string, b: string, c: char)
    requires c !in b && a + [c] <= b + [c]
    ensures a == b
  {
    var p := b + [c];
    assert p[|a|] == (a + [c])[|a|] == c;
    assert p[..|a|] == (a + [c])[..|a|] == a;
    assert forall i :: 0 <= i < |b| ==> p[i] == b[i];
  }

  /** With a longer separator, namespaces without it can still share keys. */
  lemma LongSeparatorsShare()
    ensures !Incomparable(PrefixOf("a", "::"), PrefixOf("a:", "::"))
    ensures FullKey(PrefixOf("a", "::"), ":k") == FullKey(PrefixOf("a:", "::"), "k")
  {
    assert PrefixOf("a", "::") == "a::" && PrefixOf("a:", "::") == "a:::";
    assert "a::" + ":k" == "a:::" + "k";
  }

  // ----- The adapter -----

  class Store<V> {
    var entries: Entries<string, Entry<V>>

    constructor ()
      ensures entries == []
    {
      entries := [];
    }

    ghost function Cells(): map<string, Entry<V>>
      reads this
    {
      ToMap(entries)
    }
  }

  function SetAll<V>(spec: map<string, Entry<V>>, inputs: seq<Input<V>>): map<string, Entry<V>> {
    if inputs == [] then spec
    else
      var last := inputs[|inputs| - 1];
      SetAll(spec, inputs[..|inputs| - 1])[last.key := Entry(last.value, last.expires)]
  }

  /** The pairs an iteration yields: those under the prefix and not past their deadline, without the prefix. */
  function LivePairs<V>(all: Entries<string, Entry<V>>, prefix: string, now: int): Entries<string, V> {
    if all == [] then []
    else
      LivePairs(all[..|all| - 1], prefix, now) + LivePair(all[|all| - 1].0, all[|all| - 1].1, prefix, now)
  }

  function LivePair<V>(key: string, e: Entry<V>, prefix: string, now: int): Entries<string, V> {
    if prefix <= key && !Past(e, now) then [(key[|prefix|..], e.value)] else []
  }

  lemma {:induction false} LivePairFrom<V>(all: Entries<string, Entry<V>>, prefix: string, now: int, h: nat) returns (j: nat)
    requires h < |LivePairs(all, prefix, now)|
    ensures var p := LivePairs(all, prefix, now)[h];
            j < |all| && all[j].0 == FullKey(prefix, p.0) && all[j].1.value == p.1 && !Past(all[j].1, now)
  {
    var front := LivePairs(all[..|all| - 1], prefix, now);
    if h < |front| { j := LivePairFrom(all[..|all| - 1], prefix, now, h); } else { j := |all| - 1; }
  }

  lemma {:induction false} LivePairOf<V>(all: Entries<string, Entry<V>>, prefix: string, now: int, j: nat) returns (h: nat)
    requires j < |all| && prefix <= all[j].0 && !Past(all[j].1, now)
    ensures h < |LivePairs(all, prefix, now)| && LivePairs(all, prefix, now)[h] == (all[j].0[|prefix|..], all[j].1.value)
  {
    if j < |all| - 1 { h := LivePairOf(all[..|all| - 1], prefix, now, j); } else { h := |LivePairs(all[..|all| - 1], prefix, now)|; }
  }

  lemma {:induction false} LivePairsValid<V>(all: Entries<string, Entry<V>>, prefix: string, now: int)
    requires JsMap.Valid(all)
    ensures JsMap.Valid(LivePairs(all, prefix, now))
  {
    if all != [] {
      var front, pairs := all[..|all| - 1], LivePairs(all, prefix, now);
      LivePairsValid(front, prefix, now);
      forall h | 0 <= h < |LivePairs(front, prefix, now)| ensures FullKey(prefix, pairs[h].0) != all[|all| - 1].0 {
        var j := LivePairFrom(front, prefix, now, h);
      }
    }
  }

  /** The pairs an iteration yields are the live entries. */
  lemma LivePairsAre<V>(all: Entries<string, Entry<V>>, spec: map<string, Entry<V>>, prefix: string, now: int)
    requires JsMap.Valid(all) && Agrees(spec, ToMap(all), prefix, now)
    ensures JsMap.Valid(LivePairs(all, prefix, now))
    ensures forall k :: Lookup(ToMap(LivePairs(all, prefix, now)), k) == Live(spec, k, now)
  {
    var pairs := LivePairs(all, prefix, now);
    LivePairsValid(all, prefix, now);
    forall k ensures Lookup(ToMap(pairs), k) == Live(spec, k, now) {
      assert AgreesAt(spec, ToMap(all), prefix, now, k);
      if k in ToMap(pairs) {
        var j := LivePairFrom(all, prefix, now, IndexOf(pairs, k));
        IndexIs(all, j);
      } else if Live(spec, k, now).Some? {
        var j := IndexOf(all, FullKey(prefix, k));
        assert prefix <= FullKey(prefix, k) && FullKey(prefix, k)[|prefix|..] == k;
        var h := LivePairOf(all, prefix, now, j);
      }
    }
  }

  function DeleteAllOf<V>(spec: map<string, Entry<V>>, keys: seq<string>): map<string, Entry<V>> {
    if keys == [] then spec else DeleteAllOf(spec, keys[..|keys| - 1]) - {keys[|keys| - 1]}
  }

  lemma DeletedNone<V>(spec: map<string, Entry<V>>, keys: seq<string>)
    ensures DeleteAllOf(spec, keys[..0]) == spec && keys[..|keys|] == keys
  {}

  lemma {:induction false} DeletedAt<V>(spec: map<string, Entry<V>>, keys: seq<string>, k: string)
    ensures Lookup(DeleteAllOf(spec, keys), k) == if k in keys then None else Lookup(spec, k)
  {
    if keys != [] {
      DeletedAt(spec, keys[..|keys| - 1], k);
      assert keys == keys[..|keys| - 1] + [keys[|keys| - 1]];
    }
  }

  lemma DeletedMore<V>(spec: map<string, Entry<V>>, keys: seq<string>, i: nat)
    requires i < |keys|
    ensures DeleteAllOf(spec, keys[..i + 1]) == DeleteAllOf(spec, keys[..i]) - {keys[i]}
  {
    assert keys[..i + 1][..i] == keys[..i];
  }

  class KeyvMemoryAdapter<V> {
    const store: Store<V>
    const namespace: string
    const separator: string
    /** The map this refines, and the last time something was read or written. */
    ghost var spec: map<string, Entry<V>>
    ghost var clock: int

    ghost predicate Valid()
      reads this, store
    {
      JsMap.Valid(store.entries) && Agrees(spec, store.Cells(), Prefix(), clock)
    }

    function Prefix(): string { PrefixOf(namespace, separator) }

    /** An adapter may be put on a store that is in use: it starts from the cells under its prefix. */
    constructor (store: Store<V>, namespace: string, separator: string)
      requires JsMap.Valid(store.entries)
      ensures Valid() && spec == Existing(store.Cells(), PrefixOf(namespace, separator))
      ensures this.store == store && this.namespace == namespace && this.separator == separator
    {
      this.store := store;
      this.namespace := namespace;
      this.separator := separator;
      new;
      spec := Existing(store.Cells(), Prefix());
      ExistingAgrees(store.Cells(), Prefix(), clock);
    }

    /** After a step at `now`: the map is `after`, and cells of other prefixes are as `before`. */
    ghost predicate Stepped(now: int, after: map<string, Entry<V>>, before: map<string, Entry<V>>)
      reads this, store
    {
      Valid() && clock == now && spec == after && OnlyUnder(Prefix(), before, store.Cells())
    }

    /** `_store.get`, with an entry past its deadline removed. */
    method Fetch(key: string, now: int) returns (entry: Option<V>)
      requires Valid() && now >= clock
      modifies this`clock, store
      ensures Stepped(now, old(spec), old(store.Cells())) && entry == Live(old(spec), key, now)
    {
      hide Agrees, OnlyUnder, JsMap.Valid, ToMap, JsMap.Delete, JsMap.Get;
      var keyPrefix := FullKey(Prefix(), key);
      ghost var cells := store.Cells();
      AgreesLater(spec, cells, Prefix(), clock, now);
      AgreesHere(spec, cells, Prefix(), now, key);
      clock := now;
      GetIs(store.entries, keyPrefix);
      var found := JsMap.Get(store.entries, keyPrefix);
      if found.None? { return None; }
      if Past(found.value, now) {
        DeleteIs(store.entries, keyPrefix);
        AgreesDelete(spec, cells, Prefix(), now, key);
        store.entries := JsMap.Delete(store.entries, keyPrefix);
        return None;
      }
      entry := Some(found.value.value);
    }

    method Get(key: string, now: int) returns (value: Option<V>)
      requires Valid() && now >= clock
      modifies this`clock, store
      ensures Stepped(now, old(spec), old(store.Cells())) && value == Live(old(spec), key, now)
      ensures Shows(old(spec), key, now, value)
    {
      LiveShows(spec, now);
      value := Fetch(key, now);
    }

    method Has(key: string, now: int) returns (has: bool)
      requires Valid() && now >= clock
      modifies this`clock, store
      ensures Stepped(now, old(spec), old(store.Cells())) && has == Live(old(spec), key, now).Some?
      ensures has <==> exists value :: Shows(old(spec), key, now, Some(value))
    {
      LiveShows(spec, now);
      var entry := Fetch(key, now);
      has := entry.Some?;
    }

    method Set(key: string, value: V, expires: Option<int>, now: int) returns (ok: bool)
      requires Valid() && now >= clock
      modifies this, store
      ensures ok && Stepped(now, old(spec)[key := Entry(value, expires)], old(store.Cells()))
      ensures var k := if namespace == "" then key else namespace + separator + key;
              Lookup(store.Cells(), k) == Some(Entry(value, expires))
    {
      hide Agrees, OnlyUnder, JsMap.Valid, ToMap, JsMap.Set;
      var keyPrefix, entry := FullKey(Prefix(), key), Entry(value, expires);
      ghost var cells := store.Cells();
      AgreesLater(spec, cells, Prefix(), clock, now);
      SetIs(store.entries, keyPrefix, entry);
      AgreesSet(spec, cells, Prefix(), now, key, entry);
      store.entries := JsMap.Set(store.entries, keyPrefix, entry);
      assert keyPrefix == if namespace == "" then key else namespace + separator + key;
      assert store.Cells() == cells[keyPrefix := entry];
      clock, spec := now, spec[key := entry];
      ok := true;
    }

    /** Reported as deleted: every live entry, and none that is not in the map. */
    method Delete(key: string, now: int) returns (deleted: bool)
      requires Valid() && now >= clock
      modifies this, store
      ensures Stepped(now, old(spec) - {key}, old(store.Cells()))
      ensures Live(old(spec), key, now).Some? ==> deleted
      ensures deleted ==> key in old(spec)
    {
      hide Agrees, OnlyUnder, JsMap.Valid, ToMap, JsMap.Delete, JsMap.Get;
      var keyPrefix := FullKey(Prefix(), key);
      ghost var cells := store.Cells();
      AgreesLater(spec, cells, Prefix(), clock, now);
      AgreesHere(spec, cells, Prefix(), now, key);
      DeleteIs(store.entries, keyPrefix);
      GetIs(store.entries, keyPrefix);
      AgreesDelete(spec, cells, Prefix(), now, key);
      deleted := JsMap.Has(store.entries, keyPrefix);
      store.entries := JsMap.Delete(store.entries, keyPrefix);
      clock, spec := now, spec - {key};
    }

    /** A namespaced adapter's keys go, an adapter's without namespace all keys. */
    method Clear(now: int)
      requires Valid() && now >= clock
      modifies this, store
      ensures Stepped(now, map[], old(store.Cells()))
      ensures forall q :: Lookup(store.Cells(), q) == if Prefix() <= q then None else Lookup(old(store.Cells()), q)
    {
      ghost var before := store.Cells();
      clock, spec := now, map[];
      if namespace == "" {
        store.entries := [];
      } else {
        ClearPrefix(Prefix());
      }
      Cleared(before, store.Cells(), Prefix(), now);
    }

    method ClearPrefix(prefix: string)
      requires JsMap.Valid(store.entries)
      modifies store
      ensures JsMap.Valid(store.entries)
      ensures forall q :: Lookup(store.Cells(), q) == if prefix <= q then None else Lookup(old(store.Cells()), q)
    {
      ghost var before := store.Cells();
      var keysToDelete: seq<string> := [];
      for i := 0 to |store.entries|
        invariant store.Cells() == before && JsMap.Valid(store.entries)
        invariant forall k :: k in keysToDelete <==> exists j :: 0 <= j < i && store.entries[j].0 == k && prefix <= k
      {
        if prefix <= store.entries[i].0 { keysToDelete := keysToDelete + [store.entries[i].0]; }
      }
      assert forall k :: k in keysToDelete <==> k in before && prefix <= k;
      DeleteAll(keysToDelete);
      forall k ensures Lookup(store.Cells(), k) == if prefix <= k then None else Lookup(before, k) {
        DeletedAt(before, keysToDelete, k);
      }
    }

    method DeleteAll(keys: seq<string>)
      requires JsMap.Valid(store.entries)
      modifies store
      ensures JsMap.Valid(store.entries)
      ensures store.Cells() == DeleteAllOf(old(store.Cells()), keys)
    {
      hide JsMap.Valid, ToMap, JsMap.Delete, DeleteAllOf;
      DeletedNone(store.Cells(), keys);
      for i := 0 to |keys|
        invariant JsMap.Valid(store.entries)
        invariant store.Cells() == DeleteAllOf(old(store.Cells()), keys[..i])
      {
        DeletedMore(old(store.Cells()), keys, i);
        DeleteIs(store.entries, keys[i]);
        store.entries := JsMap.Delete(store.entries, keys[i]);
      }
    }

    // ----- The many forms -----

    method GetMany(keys: seq<string>, now: int) returns (values: seq<Option<V>>)
      requires Valid() && now >= clock
      modifies this`clock, store
      ensures Stepped(now, old(spec), old(store.Cells()))
      ensures |values| == |keys| && forall i :: 0 <= i < |keys| ==> values[i] == Live(old(spec), keys[i], now)
      ensures forall i :: 0 <= i < |keys| ==> Shows(old(spec), keys[i], now, values[i])
    {
      hide Shows;
      LiveShows(spec, now);
      hide Agrees, OnlyUnder, JsMap.Valid, ToMap, JsMap.Delete, JsMap.Get;
      ghost var before := store.Cells();
      AgreesLater(spec, before, Prefix(), clock, now);
      clock := now;
      values := [];
      for i := 0 to |keys|
        invariant Stepped(now, old(spec), before)
        invariant |values| == i && forall j :: 0 <= j < i ==> values[j] == Live(old(spec), keys[j], now)
      {
        var keyPrefix := FullKey(Prefix(), keys[i]);
        ghost var cells := store.Cells();
        AgreesHere(spec, cells, Prefix(), now, keys[i]);
        GetIs(store.entries, keyPrefix);
        var found := JsMap.Get(store.entries, keyPrefix);
        if found.None? {
          values := values + [None];
        } else if Past(found.value, now) {
          DeleteIs(store.entries, keyPrefix);
          AgreesDelete(spec, cells, Prefix(), now, keys[i]);
          store.entries := JsMap.Delete(store.entries, keyPrefix);
          OnlyUnderTwice(Prefix(), before, cells, store.Cells());
          values := values + [None];
        } else {
          values := values + [Some(found.value.value)];
        }
      }
    }

    method HasMany(keys: seq<string>, now: int) returns (results: seq<bool>)
      requires Valid() && now >= clock
      modifies this`clock, store
      ensures Stepped(now, old(spec), old(store.Cells()))
      ensures |results| == |keys| && forall i :: 0 <= i < |keys| ==> results[i] == Live(old(spec), keys[i], now).Some?
      ensures forall i :: 0 <= i < |keys| ==> (results[i] <==> exists value :: Shows(old(spec), keys[i], now, Some(value)))
    {
      LiveShows(spec, now);
      hide Agrees, OnlyUnder, JsMap.Valid, ToMap, Live;
      ghost var before := store.Cells();
      AgreesLater(spec, before, Prefix(), clock, now);
      clock := now;
      results := [];
      for i := 0 to |keys|
        invariant Stepped(now, old(spec), before)
        invariant |results| == i && forall j :: 0 <= j < i ==> results[j] == Live(old(spec), keys[j], now).Some?
      {
        ghost var cells := store.Cells();
        var has := Has(keys[i], now);
        OnlyUnderTwice(Prefix(), before, cells, store.Cells());
        results := results + [has];
      }
    }

    method SetMany(inputs: seq<Input<V>>, now: int) returns (results: seq<bool>)
      requires Valid() && now >= clock
      modifies this, store
      ensures Stepped(now, SetAll(old(spec), inputs), old(store.Cells()))
      ensures |results| == |inputs| && forall i :: 0 <= i < |inputs| ==> results[i]
    {
      hide Agrees, OnlyUnder, JsMap.Valid, ToMap, JsMap.Set;
      ghost var before := store.Cells();
      AgreesLater(spec, before, Prefix(), clock, now);
      clock := now;
      results := [];
      for i := 0 to |inputs|
        invariant Stepped(now, SetAll(old(spec), inputs[..i]), before)
        invariant |results| == i && forall j :: 0 <= j < i ==> results[j]
      {
        assert inputs[..i + 1][..i] == inputs[..i];
        var keyPrefix, entry := FullKey(Prefix(), inputs[i].key), Entry(inputs[i].value, inputs[i].expires);
        ghost var cells := store.Cells();
        SetIs(store.entries, keyPrefix, entry);
        AgreesSet(spec, cells, Prefix(), now, inputs[i].key, entry);
        store.entries := JsMap.Set(store.entries, keyPrefix, entry);
        spec := spec[inputs[i].key := entry];
        OnlyUnderTwice(Prefix(), before, cells, store.Cells());
        results := results + [true];
      }
      assert inputs[..|inputs|] == inputs;
    }

    method DeleteMany(keys: seq<string>, now: int) returns (results: seq<bool>)
      requires Valid() && now >= clock
      modifies this, store
      ensures Stepped(now, DeleteAllOf(old(spec), keys), old(store.Cells()))
      ensures |results| == |keys|
      ensures forall i :: 0 <= i < |keys| ==>
                (results[i] ==> keys[i] in DeleteAllOf(old(spec), keys[..i]))
                && (Live(DeleteAllOf(old(spec), keys[..i]), keys[i], now).Some? ==> results[i])
    {
      hide Agrees, OnlyUnder, JsMap.Valid, ToMap, Live, DeleteAllOf, JsMap.Delete, JsMap.Get;
      ghost var before := store.Cells();
      AgreesLater(spec, before, Prefix(), clock, now);
      clock := now;
      results := [];
      DeletedNone(old(spec), keys);
      for i := 0 to |keys|
        invariant Stepped(now, DeleteAllOf(old(spec), keys[..i]), before)
        invariant |results| == i
        invariant forall j :: 0 <= j < i ==>
          (results[j] ==> keys[j] in DeleteAllOf(old(spec), keys[..j]))
          && (Live(DeleteAllOf(old(spec), keys[..j]), keys[j], now).Some? ==> results[j])
      {
        DeletedMore(old(spec), keys, i);
        var keyPrefix := FullKey(Prefix(), keys[i]);
        ghost var cells := store.Cells();
        AgreesHere(spec, cells, Prefix(), now, keys[i]);
        LiveIsThere(spec, cells, Prefix(), now, keys[i]);
        DeleteIs(store.entries, keyPrefix);
        GetIs(store.entries, keyPrefix);
        AgreesDelete(spec, cells, Prefix(), now, keys[i]);
        var existed := JsMap.Has(store.entries, keyPrefix);
        store.entries := JsMap.Delete(store.entries, keyPrefix);
        spec := spec - {keys[i]};
        OnlyUnderTwice(Prefix(), before, cells, store.Cells());
        results := results + [existed];
      }
    }

    /** An uninterrupted iteration yields exactly the live pairs, each once, and removes the namespace's
        entries past their deadline. */
    method Iterate(now: int) returns (pairs: seq<(string, V)>)
      requires Valid() && now >= clock
      modifies this`clock, store
      ensures Stepped(now, old(spec), old(store.Cells()))
      ensures JsMap.Valid(pairs) && forall k :: Lookup(ToMap(pairs), k) == Live(old(spec), k, now)
      ensures forall k :: Shows(old(spec), k, now, Lookup(ToMap(pairs), k))
    {
      hide Shows;
      LiveShows(spec, now);
      hide Agrees, OnlyUnder, ToMap, Live, LivePair;
      ghost var before := store.Cells();
      AgreesLater(spec, before, Prefix(), clock, now);
      clock := now;
      var all := store.entries;
      LivePairsAre(all, spec, Prefix(), now);
      AllFound(all);
      pairs := [];
      for i := 0 to |all|
        invariant Stepped(now, old(spec), before)
        invariant forall j :: i <= j < |all| ==> Lookup(store.Cells(), all[j].0) == Some(all[j].1)
        invariant JsMap.Valid(all) && pairs == LivePairs(all[..i], Prefix(), now)
      {
        assert all[..i + 1][..i] == all[..i];
        ghost var cells := store.Cells();
        var pair := Visit(all[i].0, all[i].1, now);
        OnlyUnderTwice(Prefix(), before, cells, store.Cells());
        pairs := pairs + pair;
      }
      assert all[..|all|] == all;
    }

    /** One round of the iteration. */
    method Visit(key: string, e: Entry<V>, now: int) returns (pair: seq<(string, V)>)
      requires Valid() && clock == now && Lookup(store.Cells(), key) == Some(e)
      modifies store
      ensures Stepped(now, spec, old(store.Cells())) && pair == LivePair(key, e, Prefix(), now)
      ensures forall q :: q != key ==> Lookup(store.Cells(), q) == Lookup(old(store.Cells()), q)
    {
      AgreesLater(spec, store.Cells(), Prefix(), now, now);
      pair := [];
      if Prefix() <= key {
        if Past(e, now) {
          Reap(key);
        } else {
          pair := [(key[|Prefix()|..], e.value)];
        }
      }
    }

    /** `_store.delete(key)` for an entry past its deadline. */
    method Reap(key: string)
      requires Valid() && Prefix() <= key && Lookup(store.Cells(), key).Some? && Past(store.Cells()[key], clock)
      modifies store
      ensures Stepped(clock, spec, old(store.Cells())) && store.Cells() == old(store.Cells()) - {key}
    {
      hide Agrees, OnlyUnder, ToMap, JsMap.Delete;
      ghost var cells := store.Cells();
      assert key == FullKey(Prefix(), key[|Prefix()|..]);
      DeleteIs(store.entries, key);
      AgreesDelete(spec, cells, Prefix(), clock, key[|Prefix()|..]);
      store.entries := JsMap.Delete(store.entries, key);
    }

    lemma AllFound(all: Entries<string, Entry<V>>)
      requires JsMap.Valid(all)
      ensures forall j :: 0 <= j < |all| ==> Lookup(ToMap(all), all[j].0) == Some(all[j].1)
    {
      forall j | 0 <= j < |all| ensures Lookup(ToMap(all), all[j].0) == Some(all[j].1) { IndexIs(all, j); }
    }
  }
  // ----- Runs of two adapters on one store -----

  datatype Command<V> =
    | Read(keys: seq<string>)
    | Write(inputs: seq<Input<V>>)
    | Remove(keys: seq<string>)
    | Clear

  function After<V>(spec: map<string, Entry<V>>, c: Command<V>): map<string, Entry<V>> {
    match c
    case Read(_) => spec
    case Write(inputs) => SetAll(spec, inputs)
    case Remove(keys) => DeleteAllOf(spec, keys)
    case Clear => map[]
  }

  /** The values a command reads. */
  function Answer<V>(spec: map<string, Entry<V>>, c: Command<V>, now: int): seq<Option<V>> {
    if c.Read? then seq(|c.keys|, i requires 0 <= i < |c.keys| => Live(spec, c.keys[i], now)) else []
  }

  /** A command given at `now` to the first or to the second of two adapters. */
  datatype Turn<V> = Turn(first: bool, command: Command<V>, now: int)

  /** The map of one adapter after its own turns, as if the other did not exist. */
  function AloneAfter<V>(spec: map<string, Entry<V>>, turns: seq<Turn<V>>, first: bool): map<string, Entry<V>> {
    if turns == [] then spec
    else
      var before, last := AloneAfter(spec, turns[..|turns| - 1], first), turns[|turns| - 1];
      if last.first == first then After(before, last.command) else before
  }

  predicate InTime<V>(turns: seq<Turn<V>>, clock: int) {
    && (turns != [] ==> turns[0].now >= clock)
    && forall i, j :: 0 <= i < j < |turns| ==> turns[i].now <= turns[j].now
  }

  method Do<V>(adapter: KeyvMemoryAdapter<V>, c: Command<V>, now: int) returns (answer: seq<Option<V>>)
    requires adapter.Valid() && now >= adapter.clock
    modifies adapter, adapter.store
    ensures adapter.Stepped(now, After(old(adapter.spec), c), old(adapter.store.Cells()))
    ensures answer == Answer(old(adapter.spec), c, now)
  {
    hide Agrees, OnlyUnder, JsMap.Valid, ToMap, Live, SetAll, DeleteAllOf;
    answer := [];
    match c {
      case Read(keys) => answer := adapter.GetMany(keys, now);
      case Write(inputs) => var _ := adapter.SetMany(inputs, now);
      case Remove(keys) => var _ := adapter.DeleteMany(keys, now);
      case Clear => adapter.Clear(now);
    }
  }

  /** One adapter carries out a command; another one on the same store, with neither prefix beginning the
      other, stays as it is. */
  method DoBeside<V>(mine: KeyvMemoryAdapter<V>, theirs: KeyvMemoryAdapter<V>, c: Command<V>, now: int)
    returns (answer: seq<Option<V>>)
    requires mine.Valid() && theirs.Valid() && now >= mine.clock
    requires mine != theirs && mine.store == theirs.store && Incomparable(mine.Prefix(), theirs.Prefix())
    modifies mine, mine.store
    ensures mine.Valid() && mine.clock == now && mine.spec == After(old(mine.spec), c)
    ensures theirs.Valid() && theirs.clock == old(theirs.clock) && theirs.spec == old(theirs.spec)
    ensures answer == Answer(old(mine.spec), c, now)
  {
    hide Agrees, OnlyUnder, JsMap.Valid, ToMap, After, Answer;
    ghost var before := mine.store.Cells();
    answer := Do(mine, c, now);
    OthersUnaffected(theirs.spec, before, mine.store.Cells(), mine.Prefix(), theirs.Prefix(), theirs.clock);
  }

  // ----- What is written stays readable until its deadline -----

  /** The command neither writes nor removes the key. */
  predicate Spares<V>(c: Command<V>, key: string) {
    match c
    case Read(_) => true
    case Write(inputs) => forall i :: 0 <= i < |inputs| ==> inputs[i].key != key
    case Remove(keys) => key !in keys
    case Clear => false
  }

  lemma {:induction false} SetOthers<V>(spec: map<string, Entry<V>>, inputs: seq<Input<V>>, key: string)
    requires forall i :: 0 <= i < |inputs| ==> inputs[i].key != key
    ensures Lookup(SetAll(spec, inputs), key) == Lookup(spec, key)
  {
    if inputs != [] { SetOthers(spec, inputs[..|inputs| - 1], key); }
  }

  lemma SparedStays<V>(spec: map<string, Entry<V>>, c: Command<V>, key: string)
    requires Spares(c, key)
    ensures Lookup(After(spec, c), key) == Lookup(spec, key)
  {
    match c
    case Write(inputs) => SetOthers(spec, inputs, key);
    case Remove(keys) => DeletedAt(spec, keys, key);
    case _ =>
  }

  /** After a write, whatever else the adapter does that spares the key, every way of reading finds the value up
      to and at its deadline, and nothing after it. */
  method WriteThenRead<V>(adapter: KeyvMemoryAdapter<V>, key: string, value: V, expires: Option<int>, at: int,
                          between: seq<Command<V>>, times: seq<int>, now: int)
    returns (found: Option<V>, many: seq<Option<V>>, has: bool, hasMany: seq<bool>, pairs: seq<(string, V)>)
    requires adapter.Valid() && adapter.clock <= at && |times| == |between| + 2 && times[0] == at && times[|between| + 1] == now
    requires forall i, j :: 0 <= i < j < |times| ==> times[i] <= times[j]
    requires forall i :: 0 <= i < |between| ==> Spares(between[i], key)
    modifies adapter, adapter.store
    ensures found == if expires == None || now <= expires.value then Some(value) else None
    ensures many == [found] && has == found.Some? && hasMany == [has]
    ensures Lookup(ToMap(pairs), key) == found
  {
    hide Agrees, OnlyUnder, JsMap.Valid, ToMap, Live, After, Answer, Spares;
    var _ := adapter.Set(key, value, expires, at);
    for i := 0 to |between|
      invariant adapter.Valid() && adapter.clock == times[i] && Lookup(adapter.spec, key) == Some(Entry(value, expires))
    {
      SparedStays(adapter.spec, between[i], key);
      var _ := Do(adapter, between[i], times[i + 1]);
    }
    found := adapter.Get(key, now);
    assert found == if expires == None || now <= expires.value then Some(value) else None;
    many := adapter.GetMany([key], now);
    assert [key][0] == key;
    has := adapter.Has(key, now);
    hasMany := adapter.HasMany([key], now);
    pairs := adapter.Iterate(now);
  }

  /** However the commands of two such adapters interleave, each adapter answers and ends as if it had been
      alone on the store. */
  method Interleave<V>(a: KeyvMemoryAdapter<V>, b: KeyvMemoryAdapter<V>, turns: seq<Turn<V>>)
    returns (answers: seq<seq<Option<V>>>)
    requires a.Valid() && b.Valid() && InTime(turns, a.clock) && InTime(turns, b.clock)
    requires a != b && a.store == b.store && Incomparable(a.Prefix(), b.Prefix())
    modifies a, b, a.store
    ensures a.Valid() && a.spec == AloneAfter(old(a.spec), turns, true)
    ensures b.Valid() && b.spec == AloneAfter(old(b.spec), turns, false)
    ensures |answers| == |turns|
    ensures forall i :: 0 <= i < |turns| ==>
              var own := if turns[i].first then old(a.spec) else old(b.spec);
              answers[i] == Answer(AloneAfter(own, turns[..i], turns[i].first), turns[i].command, turns[i].now)
  {
    hide Agrees, OnlyUnder, JsMap.Valid, ToMap, Live, After, AloneAfter, Answer;
    answers := [];
    AloneNone(a.spec, turns, true);
    AloneNone(b.spec, turns, false);
    for i := 0 to |turns|
      invariant a.Valid() && a.spec == AloneAfter(old(a.spec), turns[..i], true)
      invariant b.Valid() && b.spec == AloneAfter(old(b.spec), turns[..i], false)
      invariant i < |turns| ==> a.clock <= turns[i].now && b.clock <= turns[i].now
      invariant |answers| == i
      invariant forall j :: 0 <= j < i ==>
        var own := if turns[j].first then old(a.spec) else old(b.spec);
        answers[j] == Answer(AloneAfter(own, turns[..j], turns[j].first), turns[j].command, turns[j].now)
    {
      AloneMore(old(a.spec), turns, i, true);
      AloneMore(old(b.spec), turns, i, false);
      var answer;
      if turns[i].first {
        answer := DoBeside(a, b, turns[i].command, turns[i].now);
      } else {
        answer := DoBeside(b, a, turns[i].command, turns[i].now);
      }
      answers := answers + [answer];
    }
  }

  lemma AloneNone<V>(spec: map<string, Entry<V>>, turns: seq<Turn<V>>, first: bool)
    ensures AloneAfter(spec, turns[..0], first) == spec && turns[..|turns|] == turns
  {}

  lemma AloneMore<V>(spec: map<string, Entry<V>>, turns: seq<Turn<V>>, i: nat, first: bool)
    requires i < |turns|
    ensures turns[i].first == first ==>
              AloneAfter(spec, turns[..i + 1], first) == After(AloneAfter(spec, turns[..i], first), turns[i].command)
    ensures turns[i].first != first ==> AloneAfter(spec, turns[..i + 1], first) == AloneAfter(spec, turns[..i], first)
  {
    assert turns[..i + 1][..i] == turns[..i];
  }
}

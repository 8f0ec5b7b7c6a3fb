/**
The bridge over a legacy store: the optional native methods are used where the store has them, and
primitives otherwise.  Deadlines become remaining ttls, and an elapsed one a deletion.
*/
module Bridge {
  import opened Wrappers
  import KeyvCore

  /** What is stored: a value that may carry its own deadline. */
  datatype Data<V> = Data(value: V, expires: Option<int>)

  /** A cell of the legacy store, with the ttl it was written with. */
  datatype Cell<V> = Cell(data: Data<V>, ttl: Option<int>)

  type Cells<V> = map<string, Cell<V>>

  datatype Entry<V> = Entry(key: string, data: Data<V>, expires: Option<int>)

  /** Which optional methods the store has. */
  datatype Methods = Methods(getMany: bool, setMany: bool, has: bool, hasMany: bool, deleteMany: bool)

  predicate DataExpired<V>(data: Data<V>, now: int) { data.expires.Some? && now > data.expires.value }

  predicate Elapsed(expires: Option<int>, now: int) { expires.Some? && expires.value <= now }

  // ----- What the operations do to the cells -----

  function ReadOf<V>(cells: Cells<V>, k: string, now: int): Option<Data<V>> {
    if k in cells && !DataExpired(cells[k].data, now) then Some(cells[k].data) else None
  }

  function Reaped<V>(cells: Cells<V>, keys: seq<string>, now: int): Cells<V> {
    map k | k in cells && !(k in keys && DataExpired(cells[k].data, now)) :: cells[k]
  }

  function SetOne<V>(cells: Cells<V>, e: Entry<V>, now: int): Cells<V> {
    if Elapsed(e.expires, now) then cells - {e.key} else cells[e.key := Cell(e.data, KeyvCore.TtlFromExpires(e.expires, now))]
  }

  /** The fallback: one `set` after the other. */
  function InOrder<V>(cells: Cells<V>, entries: seq<Entry<V>>, now: int): Cells<V> {
    if entries == [] then cells else SetOne(InOrder(cells, entries[..|entries| - 1], now), entries[|entries| - 1], now)
  }

  function LiveEntries<V>(entries: seq<Entry<V>>, now: int): seq<Entry<V>> {
    if entries == [] then []
    else
      var front := LiveEntries(entries[..|entries| - 1], now);
      if Elapsed(entries[|entries| - 1].expires, now) then front else front + [entries[|entries| - 1]]
  }

  function ElapsedKeys<V>(entries: seq<Entry<V>>, now: int): set<string> {
    set i | 0 <= i < |entries| && Elapsed(entries[i].expires, now) :: entries[i].key
  }

  /** Delegated: the live entries as one batch, then the deletions. */
  function LiveThenElapsed<V>(cells: Cells<V>, entries: seq<Entry<V>>, now: int): Cells<V> {
    InOrder(cells, LiveEntries(entries, now), now) - ElapsedKeys(entries, now)
  }

  /** The entries the store has a say in and refuses are left out; deletions it cannot refuse. */
  function Taken<V>(entries: seq<Entry<V>>, now: int, refuses: string -> bool): seq<Entry<V>> {
    if entries == [] then []
    else
      var front, last := Taken(entries[..|entries| - 1], now, refuses), entries[|entries| - 1];
      if !Elapsed(last.expires, now) && refuses(last.key) then front else front + [last]
  }

  lemma TakenMore<V>(entries: seq<Entry<V>>, last: Entry<V>, now: int, refuses: string -> bool)
    ensures Taken(entries + [last], now, refuses)
         == if !Elapsed(last.expires, now) && refuses(last.key) then Taken(entries, now, refuses)
            else Taken(entries, now, refuses) + [last]
  {
    assert (entries + [last])[..|entries|] == entries;
  }

  lemma LiveMore<V>(entries: seq<Entry<V>>, last: Entry<V>, now: int)
    ensures LiveEntries(entries + [last], now)
         == if Elapsed(last.expires, now) then LiveEntries(entries, now) else LiveEntries(entries, now) + [last]
  {
    assert (entries + [last])[..|entries|] == entries;
  }

  lemma InOrderMore<V>(cells: Cells<V>, entries: seq<Entry<V>>, last: Entry<V>, now: int)
    ensures InOrder(cells, entries + [last], now) == SetOne(InOrder(cells, entries, now), last, now)
  {
    assert (entries + [last])[..|entries|] == entries;
  }

  // ----- Deadlines -----

  /** What a batch leaves under `k`: what its last entry for `k` says, stored with the positive time that is
      left if that has a deadline, and what was there if the batch has no such entry. */
  ghost predicate DeadlineKept<V>(cells: Cells<V>, entries: seq<Entry<V>>, now: int, after: Cells<V>, k: string) {
    k in after ==>
      match LastFor(entries, k)
      case None => k in cells && after[k] == cells[k]
      case Some(i) =>
        && !Elapsed(entries[i].expires, now) && after[k].data == entries[i].data
        && (after[k].ttl.Some? <==> entries[i].expires.Some?)
        && (after[k].ttl.Some? ==> after[k].ttl.value > 0 && now + after[k].ttl.value == entries[i].expires.value)
  }

  /** On either path no deadline is lost: none that has elapsed is stored, none is stored without a ttl. */
  lemma BatchDeadlinesKept<V>(cells: Cells<V>, entries: seq<Entry<V>>, now: int, k: string)
    ensures DeadlineKept(cells, entries, now, InOrder(cells, entries, now), k)
    ensures DeadlineKept(cells, entries, now, LiveThenElapsed(cells, entries, now), k)
  {
    InOrderAt(cells, entries, now, k);
    InOrderAt(cells, LiveEntries(entries, now), now, k);
    if k !in ElapsedKeys(entries, now) { LiveLast(entries, now, k); }
  }

  // ----- When the two ways of writing a batch agree -----

  function LastFor<V>(entries: seq<Entry<V>>, k: string): (r: Option<nat>)
    ensures r.Some? ==> r.value < |entries| && entries[r.value].key == k
    ensures forall i :: 0 <= i < |entries| && entries[i].key == k ==> r.Some? && i <= r.value
  {
    if entries == [] then None
    else if entries[|entries| - 1].key == k then Some(|entries| - 1)
    else LastFor(entries[..|entries| - 1], k)
  }

  /** The last entry for a key decides its cell. */
  lemma {:induction false} InOrderAt<V>(cells: Cells<V>, entries: seq<Entry<V>>, now: int, k: string)
    ensures Lookup(InOrder(cells, entries, now), k)
         == match LastFor(entries, k)
            case None => Lookup(cells, k)
            case Some(i) => if Elapsed(entries[i].expires, now) then None
                            else Some(Cell(entries[i].data, KeyvCore.TtlFromExpires(entries[i].expires, now)))
  {
    if entries != [] { InOrderAt(cells, entries[..|entries| - 1], now, k); }
  }

  /** Dropping elapsed entries keeps the last entry of every key that has none. */
  lemma {:induction false} LiveLast<V>(entries: seq<Entry<V>>, now: int, k: string)
    requires k !in ElapsedKeys(entries, now)
    ensures var live := LiveEntries(entries, now);
            match LastFor(entries, k)
            case None => LastFor(live, k) == None
            case Some(i) => LastFor(live, k).Some? && live[LastFor(live, k).value] == entries[i]
  {
    if entries != [] {
      var front, last := entries[..|entries| - 1], entries[|entries| - 1];
      assert forall i :: 0 <= i < |front| ==> front[i] == entries[i];
      assert k !in ElapsedKeys(front, now) && entries == front + [last];
      hide LiveEntries, LastFor, ElapsedKeys;
      LiveLast(front, now, k);
      LiveMore(front, last, now);
      LastForMore(front, last, k);
      LastForMore(LiveEntries(front, now), last, k);
    }
  }

  lemma LastForMore<V>(entries: seq<Entry<V>>, last: Entry<V>, k: string)
    ensures LastFor(entries + [last], k) == if last.key == k then Some(|entries|) else LastFor(entries, k)
  {
    assert (entries + [last])[..|entries|] == entries;
  }

  /** No key whose last entry is live has an elapsed one. */
  predicate NoneRevived<V>(entries: seq<Entry<V>>, now: int) {
    forall i :: 0 <= i < |entries| && Elapsed(entries[i].expires, now) ==>
      Elapsed(entries[LastFor(entries, entries[i].key).value].expires, now)
  }

  /** Whatever was stored before, the native batch leaves what single writes leave exactly when no entry
      revives a key that an earlier entry of the batch lets elapse. */
  lemma BatchesAgree<V>(cells: Cells<V>, entries: seq<Entry<V>>, now: int)
    ensures LiveThenElapsed(cells, entries, now) == InOrder(cells, entries, now) <==> NoneRevived(entries, now)
  {
    var delegated, single := LiveThenElapsed(cells, entries, now), InOrder(cells, entries, now);
    if NoneRevived(entries, now) {
      forall k ensures Lookup(delegated, k) == Lookup(single, k) {
        InOrderAt(cells, entries, now, k);
        InOrderAt(cells, LiveEntries(entries, now), now, k);
        if k !in ElapsedKeys(entries, now) { LiveLast(entries, now, k); }
      }
      SameLookups(delegated, single);
    } else {
      var i :| 0 <= i < |entries| && Elapsed(entries[i].expires, now)
               && !Elapsed(entries[LastFor(entries, entries[i].key).value].expires, now);
      InOrderAt(cells, entries, now, entries[i].key);
      assert entries[i].key in ElapsedKeys(entries, now);
      assert Lookup(delegated, entries[i].key) == None;
    }
  }

  lemma DistinctAgree<V>(cells: Cells<V>, entries: seq<Entry<V>>, now: int)
    requires forall i, j :: 0 <= i < j < |entries| ==> entries[i].key != entries[j].key
    ensures LiveThenElapsed(cells, entries, now) == InOrder(cells, entries, now)
  {
    forall i | 0 <= i < |entries| ensures LastFor(entries, entries[i].key) == Some(i) {}
    BatchesAgree(cells, entries, now);
  }

  // ----- The store and the bridge -----

  /** A store answers `false` for the keys it refuses, and `true` or nothing for the others. */
  class LegacyStore<V> {
    var cells: Cells<V>
    const answer: string -> Option<bool>

    constructor (answer: string -> Option<bool>)
      ensures cells == map[] && this.answer == answer
    {
      cells := map[];
      this.answer := answer;
    }

    predicate Refuses(key: string) { answer(key) == Some(false) }

    method Set(key: string, cell: Cell<V>) returns (result: Option<bool>)
      modifies this
      ensures result == answer(key)
      ensures cells == if Refuses(key) then old(cells) else old(cells)[key := cell]
    {
      result := answer(key);
      if result != Some(false) { cells := cells[key := cell]; }
    }

    method SetMany(entries: seq<(string, Data<V>, Option<int>)>)
      modifies this
      ensures cells == Batch(old(cells), entries, Refuses)
    {
      for i := 0 to |entries|
        invariant cells == Batch(old(cells), entries[..i], Refuses)
      {
        assert entries[..i + 1][..i] == entries[..i];
        var _ := Set(entries[i].0, Cell(entries[i].1, entries[i].2));
      }
      assert entries[..|entries|] == entries;
    }

    method DeleteMany(keys: seq<string>) returns (results: seq<bool>)
      modifies this
      ensures cells == old(cells) - (set k | k in keys)
      ensures |results| == |keys| && forall i :: 0 <= i < |keys| ==> results[i] == (keys[i] in old(cells))
    {
      var before := cells;
      results := seq(|keys|, i requires 0 <= i < |keys| => keys[i] in before);
      cells := cells - (set k | k in keys);
    }
  }

  function Batch<V>(cells: Cells<V>, entries: seq<(string, Data<V>, Option<int>)>, refuses: string -> bool): Cells<V> {
    if entries == [] then cells
    else
      var before, (k, data, ttl) := Batch(cells, entries[..|entries| - 1], refuses), entries[|entries| - 1];
      if refuses(k) then before else before[k := Cell(data, ttl)]
  }

  lemma BatchMore<V>(cells: Cells<V>, rows: seq<(string, Data<V>, Option<int>)>,
                                        row: (string, Data<V>, Option<int>), refuses: string -> bool)
    ensures Batch(cells, rows + [row], refuses)
         == if refuses(row.0) then Batch(cells, rows, refuses) else Batch(cells, rows, refuses)[row.0 := Cell(row.1, row.2)]
  {
    assert (rows + [row])[..|rows|] == rows;
  }

  class KeyvBridgeAdapter<V> {
    const store: LegacyStore<V>
    const methods: Methods
    const namespace: string
    const keySeparator: string
    const storeHandlesNamespace: bool

    constructor (store: LegacyStore<V>, methods: Methods, namespace: string, keySeparator: string, storeHandlesNamespace: bool)
      ensures this.store == store && this.methods == methods
    {
      this.store := store;
      this.methods := methods;
      this.namespace := namespace;
      this.keySeparator := keySeparator;
      this.storeHandlesNamespace := storeHandlesNamespace;
    }

    function GetKeyPrefix(key: string): string {
      if storeHandlesNamespace || namespace == "" then key else namespace + keySeparator + key
    }

    /** The name of a key in the legacy store, spelled out. */
    ghost function NameOf(key: string): string {
      if namespace != "" && !storeHandlesNamespace then namespace + keySeparator + key else key
    }

    /** What a read at `now` finds: data up to and at the deadline it carries. */
    ghost predicate ReadsAs(cells: Cells<V>, key: string, now: int, data: Option<Data<V>>) {
      var k := NameOf(key);
      data == if k in cells && (cells[k].data.expires == None || now <= cells[k].data.expires.value) then Some(cells[k].data) else None
    }

    lemma ReadsAre(cells: Cells<V>, now: int)
      ensures forall key :: NameOf(key) == GetKeyPrefix(key)
      ensures forall key :: ReadsAs(cells, key, now, ReadOf(cells, GetKeyPrefix(key), now))
    {}

    function Prefixed(keys: seq<string>): (r: seq<string>)
      ensures |r| == |keys| && forall i :: 0 <= i < |r| ==> r[i] == GetKeyPrefix(keys[i])
    {
      seq(|keys|, i requires 0 <= i < |keys| => GetKeyPrefix(keys[i]))
    }

    function PrefixedEntries(entries: seq<Entry<V>>): (r: seq<Entry<V>>)
      ensures |r| == |entries| && forall i :: 0 <= i < |r| ==> r[i] == entries[i].(key := GetKeyPrefix(entries[i].key))
    {
      seq(|entries|, i requires 0 <= i < |entries| => entries[i].(key := GetKeyPrefix(entries[i].key)))
    }

    method Get(key: string, now: int) returns (data: Option<Data<V>>)
      modifies store
      ensures data == ReadOf(old(store.cells), GetKeyPrefix(key), now)
      ensures store.cells == Reaped(old(store.cells), [GetKeyPrefix(key)], now)
      ensures ReadsAs(old(store.cells), key, now, data)
      ensures forall k :: Lookup(store.cells, k) ==
                if k == NameOf(key) && data == None then None else Lookup(old(store.cells), k)
    {
      ReadsAre(store.cells, now);
      var keyPrefix := GetKeyPrefix(key);
      if keyPrefix !in store.cells {
        assert store.cells == Reaped(store.cells, [keyPrefix], now);
        return None;
      }
      var found := store.cells[keyPrefix].data;
      if DataExpired(found, now) {
        store.cells := store.cells - {keyPrefix};
        return None;
      }
      assert store.cells == Reaped(store.cells, [keyPrefix], now);
      data := Some(found);
    }

    /** Both paths read each key as it was, and remove the expired ones among them. */
    method GetMany(keys: seq<string>, now: int) returns (values: seq<Option<Data<V>>>)
      modifies store
      ensures |values| == |keys| && forall i :: 0 <= i < |keys| ==> values[i] == ReadOf(old(store.cells), GetKeyPrefix(keys[i]), now)
      ensures store.cells == Reaped(old(store.cells), Prefixed(keys), now)
      ensures forall i :: 0 <= i < |keys| ==> ReadsAs(old(store.cells), keys[i], now, values[i])
    {
      ReadsAre(store.cells, now);
      hide ReadsAs, NameOf;
      if methods.getMany {
        values := GetManyNative(Prefixed(keys), now);
        return;
      }
      hide Reaped, ReadOf;
      values := [];
      ghost var before := store.cells;
      ReapedNone(before, Prefixed(keys), now);
      for i := 0 to |keys|
        invariant |values| == i && forall j :: 0 <= j < i ==> values[j] == ReadOf(before, GetKeyPrefix(keys[j]), now)
        invariant store.cells == Reaped(before, Prefixed(keys)[..i], now)
      {
        ReapedMore(before, Prefixed(keys), i, now);
        var data := Get(keys[i], now);
        values := values + [data];
      }
    }

    /** The native batch is read first, then its expired keys are deleted one by one. */
    method GetManyNative(prefixedKeys: seq<string>, now: int) returns (values: seq<Option<Data<V>>>)
      modifies store
      ensures |values| == |prefixedKeys|
      ensures forall i :: 0 <= i < |prefixedKeys| ==> values[i] == ReadOf(old(store.cells), prefixedKeys[i], now)
      ensures store.cells == Reaped(old(store.cells), prefixedKeys, now)
    {
      hide Reaped;
      values := [];
      var cells := store.cells;
      var results := seq(|prefixedKeys|, i requires 0 <= i < |prefixedKeys| => Lookup(cells, prefixedKeys[i]));
      ReapedNone(cells, prefixedKeys, now);
      for i := 0 to |results|
        invariant |values| == i && forall j :: 0 <= j < i ==> values[j] == ReadOf(cells, prefixedKeys[j], now)
        invariant store.cells == Reaped(cells, prefixedKeys[..i], now)
      {
        ReapedMore(cells, prefixedKeys, i, now);
        if results[i].None? {
          values := values + [None];
        } else if DataExpired(results[i].value.data, now) {
          store.cells := store.cells - {prefixedKeys[i]};
          values := values + [None];
        } else {
          values := values + [Some(results[i].value.data)];
        }
      }
    }

    lemma ReapedNone(cells: Cells<V>, keys: seq<string>, now: int)
      ensures Reaped(cells, keys[..0], now) == cells && keys[..|keys|] == keys
    {}

    lemma ReapedMore(cells: Cells<V>, keys: seq<string>, i: nat, now: int)
      requires i < |keys|
      ensures Reaped(cells, keys[..i + 1], now) == Reaped(Reaped(cells, keys[..i], now), [keys[i]], now)
      ensures Reaped(cells, keys[..i + 1], now)
           == if keys[i] in cells && DataExpired(cells[keys[i]].data, now) then Reaped(cells, keys[..i], now) - {keys[i]}
              else Reaped(cells, keys[..i], now)
      ensures ReadOf(Reaped(cells, keys[..i], now), keys[i], now) == ReadOf(cells, keys[i], now)
    {
      assert keys[..i + 1] == keys[..i] + [keys[i]];
    }

    /** The deadline is tested at `now`, and the time left taken a moment `later`.  An elapsed deadline deletes.
        Otherwise the store may refuse, and what it takes gets the time left; it gets a deadline but no ttl exactly
        when the deadline elapses between the two. */
    method Set(e: Entry<V>, now: int, later: int) returns (ok: bool)
      requires now <= later
      modifies store
      ensures var k := NameOf(e.key);
              && (ok <==> Elapsed(e.expires, now) || !store.Refuses(k))
              && store.cells == (if Elapsed(e.expires, now) then old(store.cells) - {k}
                                 else if store.Refuses(k) then old(store.cells)
                                 else old(store.cells)[k := Cell(e.data, if e.expires.None? || e.expires.value <= later then None
                                                                         else Some(e.expires.value - later))])
              && (k in store.cells && !store.Refuses(k) ==>
                    (store.cells[k].ttl.None? <==> e.expires.None? || now < e.expires.value <= later))
    {
      var keyPrefix := GetKeyPrefix(e.key);
      if Elapsed(e.expires, now) {
        store.cells := store.cells - {keyPrefix};
        return true;
      }
      var result := store.Set(keyPrefix, Cell(e.data, KeyvCore.TtlFromExpires(e.expires, later)));
      if result.Some? { return result.value; }
      ok := true;
    }

    /** What was written before its deadline, and taken, is read back while the data's own deadline lasts. */
    method WriteThenRead(e: Entry<V>, at: int, now: int)
      returns (ok: bool, found: Option<Data<V>>, many: seq<Option<Data<V>>>, has: bool)
      modifies store
      ensures ok && !(e.expires.Some? && e.expires.value <= at) ==>
                && found == (if e.data.expires == None || now <= e.data.expires.value then Some(e.data) else None)
                && many == [found] && (!methods.has ==> has == found.Some?)
      ensures e.expires.Some? && e.expires.value <= at ==> ok && found == None && many == [None] && !has
    {
      ReadsAre(store.cells, now);
      ok := Set(e, at, at);
      ReadsAre(store.cells, now);
      found := Get(e.key, now);
      ghost var cells := store.cells;
      ReadsAre(cells, now);
      assert ok ==> ReadsAs(cells, e.key, now, found);
      many := GetMany([e.key], now);
      assert [e.key][0] == e.key;
      ReadsAre(store.cells, now);
      assert Lookup(store.cells, NameOf(e.key)) == Lookup(cells, NameOf(e.key)) || !ok;
      has := Has(e.key, now);
    }

    /** Natively the live entries are one batch and the elapsed ones deleted after it; without `setMany` the
        entries are set in order.  All are reported as stored, also those the store refuses. */
    method SetMany(entries: seq<Entry<V>>, now: int) returns (results: seq<bool>)
      modifies store
      ensures |results| == |entries| && forall i :: 0 <= i < |entries| ==> results[i]
      ensures var taken := Taken(PrefixedEntries(entries), now, store.Refuses);
              && store.cells == (if methods.setMany then LiveThenElapsed(old(store.cells), taken, now)
                                 else InOrder(old(store.cells), taken, now))
              && forall k :: DeadlineKept(old(store.cells), taken, now, store.cells, k)
    {
      hide Taken, InOrder, LiveThenElapsed, DeadlineKept;
      var prefixed := PrefixedEntries(entries);
      ghost var before, taken := store.cells, Taken(prefixed, now, store.Refuses);
      if methods.setMany {
        SetManyNative(prefixed, now);
      } else {
        SetManyEach(entries, now);
      }
      forall k ensures DeadlineKept(before, taken, now, store.cells, k) { BatchDeadlinesKept(before, taken, now, k); }
      results := seq(|entries|, _ => true);
    }

    method SetManyEach(entries: seq<Entry<V>>, now: int)
      modifies store
      ensures store.cells == InOrder(old(store.cells), Taken(PrefixedEntries(entries), now, store.Refuses), now)
    {
      hide Taken, InOrder;
      var prefixed := PrefixedEntries(entries);
      ghost var before := store.cells;
      TakenNone(before, prefixed, now, store.Refuses);
      for i := 0 to |entries|
        invariant store.cells == InOrder(before, Taken(prefixed[..i], now, store.Refuses), now)
      {
        assert prefixed[..i + 1] == prefixed[..i] + [prefixed[i]];
        TakenMore(prefixed[..i], prefixed[i], now, store.Refuses);
        InOrderMore(before, Taken(prefixed[..i], now, store.Refuses), prefixed[i], now);
        var _ := Set(entries[i], now, now);
      }
    }

    lemma TakenNone(cells: Cells<V>, entries: seq<Entry<V>>, now: int, refuses: string -> bool)
      ensures InOrder(cells, Taken(entries[..0], now, refuses), now) == cells && entries[..|entries|] == entries
    {}

    method SetManyNative(prefixed: seq<Entry<V>>, now: int)
      modifies store
      ensures store.cells == LiveThenElapsed(old(store.cells), Taken(prefixed, now, store.Refuses), now)
    {
      hide Taken, LiveEntries, InOrder, Batch, ElapsedKeys;
      ghost var before, taken := store.cells, Taken(prefixed, now, store.Refuses);
      var live := LiveEntries(prefixed, now);
      store.SetMany(Rows(live, now));
      BatchIsInOrder(before, prefixed, now, store.Refuses);
      TakenKeepsElapsed(prefixed, now, store.Refuses);
      ElapsedNone(prefixed, now);
      for i := 0 to |prefixed|
        invariant store.cells == InOrder(before, LiveEntries(taken, now), now) - ElapsedKeys(prefixed[..i], now)
      {
        ElapsedMore(prefixed, i, now);
        if Elapsed(prefixed[i].expires, now) { store.cells := store.cells - {prefixed[i].key}; }
      }
      assert prefixed[..|prefixed|] == prefixed;
    }

    /** What is refused was not a deletion. */
    lemma {:induction false} TakenKeepsElapsed(entries: seq<Entry<V>>, now: int, refuses: string -> bool)
      ensures ElapsedKeys(Taken(entries, now, refuses), now) == ElapsedKeys(entries, now)
    {
      if entries != [] {
        hide Taken, ElapsedKeys;
        var front, last := entries[..|entries| - 1], entries[|entries| - 1];
        TakenKeepsElapsed(front, now, refuses);
        var taken := Taken(front, now, refuses);
        TakenMore(front, last, now, refuses);
        assert entries == front + [last] && (front + [last])[..|front|] == front && (taken + [last])[..|taken|] == taken;
        ElapsedMore(front + [last], |front|, now);
        ElapsedMore(taken + [last], |taken|, now);
        assert (front + [last])[..|front| + 1] == front + [last] && (taken + [last])[..|taken| + 1] == taken + [last];
      } else {
        assert Taken(entries, now, refuses) == [];
      }
    }

    lemma ElapsedNone(entries: seq<Entry<V>>, now: int)
      ensures ElapsedKeys(entries[..0], now) == {}
    {}

    lemma ElapsedMore(entries: seq<Entry<V>>, i: nat, now: int)
      requires i < |entries|
      ensures ElapsedKeys(entries[..i + 1], now)
           == ElapsedKeys(entries[..i], now) + if Elapsed(entries[i].expires, now) then {entries[i].key} else {}
    {
      var a, b := entries[..i], entries[..i + 1];
      forall k | k in ElapsedKeys(a, now) ensures k in ElapsedKeys(b, now) {
        var j :| 0 <= j < |a| && Elapsed(a[j].expires, now) && a[j].key == k;
        assert b[j] == a[j];
      }
      if Elapsed(entries[i].expires, now) { assert b[i] == entries[i]; }
    }

    /** The rows of a native batch: key, data and the ttl left. */
    function Rows(entries: seq<Entry<V>>, now: int): (r: seq<(string, Data<V>, Option<int>)>)
      ensures |r| == |entries|
      ensures forall i :: 0 <= i < |r| ==> r[i] == RowOf(entries[i], now)
    {
      seq(|entries|, i requires 0 <= i < |entries| => RowOf(entries[i], now))
    }

    function RowOf(e: Entry<V>, now: int): (string, Data<V>, Option<int>) {
      (e.key, e.data, KeyvCore.TtlFromExpires(e.expires, now))
    }

    lemma {:induction false} BatchIsInOrder(cells: Cells<V>, entries: seq<Entry<V>>, now: int, refuses: string -> bool)
      ensures Batch(cells, Rows(LiveEntries(entries, now), now), refuses)
           == InOrder(cells, LiveEntries(Taken(entries, now, refuses), now), now)
    {
      hide Rows, LiveEntries, Taken, InOrder, Batch;
      if entries == [] {
        NoRows(cells, now, refuses);
      } else {
        var front, last := entries[..|entries| - 1], entries[|entries| - 1];
        BatchIsInOrder(cells, front, now, refuses);
        var live, taken := LiveEntries(front, now), Taken(front, now, refuses);
        assert entries == front + [last];
        LiveMore(front, last, now);
        LiveMore(taken, last, now);
        TakenMore(front, last, now, refuses);
        RowsMore(live, last, now);
        BatchMore(cells, Rows(live, now), RowOf(last, now), refuses);
        InOrderMore(cells, LiveEntries(taken, now), last, now);
      }
    }

    lemma NoRows(cells: Cells<V>, now: int, refuses: string -> bool)
      ensures Batch(cells, Rows(LiveEntries([], now), now), refuses) == cells
      ensures InOrder(cells, LiveEntries(Taken([], now, refuses), now), now) == cells
    {}

    lemma RowsMore(entries: seq<Entry<V>>, last: Entry<V>, now: int)
      ensures Rows(entries + [last], now) == Rows(entries, now) + [RowOf(last, now)]
    {}

    /** A native `has` reports what is stored; without it data past its own deadline is removed and not
        reported.  The answers differ exactly on such data. */
    method Has(key: string, now: int) returns (has: bool)
      modifies store
      ensures has == HasOf(old(store.cells), GetKeyPrefix(key), now)
      ensures store.cells == if methods.has then old(store.cells) else Reaped(old(store.cells), [GetKeyPrefix(key)], now)
    {
      if methods.has { return GetKeyPrefix(key) in store.cells; }
      var data := Get(key, now);
      has := data.Some?;
    }

    predicate HasOf(cells: Cells<V>, k: string, now: int) {
      if methods.has then k in cells else ReadOf(cells, k, now).Some?
    }

    method HasMany(keys: seq<string>, now: int) returns (results: seq<bool>)
      modifies store
      ensures |results| == |keys|
      ensures forall i :: 0 <= i < |keys| ==>
                (results[i] <==> if methods.hasMany then GetKeyPrefix(keys[i]) in old(store.cells)
                                 else HasOf(old(store.cells), GetKeyPrefix(keys[i]), now))
      ensures store.cells == if methods.hasMany || methods.has then old(store.cells)
                             else Reaped(old(store.cells), Prefixed(keys), now)
    {
      if methods.hasMany {
        var cells := store.cells;
        return seq(|keys|, i requires 0 <= i < |keys| => GetKeyPrefix(keys[i]) in cells);
      }
      results := [];
      ghost var before := store.cells;
      ReapedNone(before, Prefixed(keys), now);
      for i := 0 to |keys|
        invariant |results| == i && forall j :: 0 <= j < i ==> results[j] == HasOf(before, GetKeyPrefix(keys[j]), now)
        invariant store.cells == if methods.has then before else Reaped(before, Prefixed(keys)[..i], now)
      {
        ReapedMore(before, Prefixed(keys), i, now);
        var has := Has(keys[i], now);
        results := results + [has];
      }
      assert Prefixed(keys)[..|keys|] == Prefixed(keys);
    }

    /** Every key is gone on either path.  A repeated key is reported at each place by a native batch, and
        at the first only without one. */
    method DeleteMany(keys: seq<string>) returns (results: seq<bool>)
      modifies store
      ensures store.cells == old(store.cells) - (set k | k in Prefixed(keys))
      ensures |results| == |keys|
      ensures forall i :: 0 <= i < |keys| ==>
                (results[i] <==> Prefixed(keys)[i] in old(store.cells) && (methods.deleteMany || Prefixed(keys)[i] !in Prefixed(keys)[..i]))
    {
      var prefixedKeys := Prefixed(keys);
      if methods.deleteMany {
        results := store.DeleteMany(prefixedKeys);
        return;
      }
      results := [];
      ghost var before := store.cells;
      for i := 0 to |keys|
        invariant |results| == i
        invariant forall j :: 0 <= j < i ==> (results[j] <==> prefixedKeys[j] in before && prefixedKeys[j] !in prefixedKeys[..j])
        invariant store.cells == before - (set k | k in prefixedKeys[..i])
      {
        results := results + [prefixedKeys[i] in store.cells];
        store.cells := store.cells - {prefixedKeys[i]};
        assert prefixedKeys[..i + 1] == prefixedKeys[..i] + [prefixedKeys[i]];
      }
      assert prefixedKeys[..|keys|] == prefixedKeys;
    }
  }

  /** The native and the fallback answer to `has` differ exactly on stored data past its own deadline. */
  lemma HasDiffersExactly<V>(native: KeyvBridgeAdapter<V>, fallback: KeyvBridgeAdapter<V>,
                                                cells: Cells<V>, k: string, now: int)
    requires native.methods.has && !fallback.methods.has
    ensures native.HasOf(cells, k, now) != fallback.HasOf(cells, k, now) <==> k in cells && DataExpired(cells[k].data, now)
  {}
}

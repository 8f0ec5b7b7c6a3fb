/**
Batched operations of the DynamoDB adapter.  A batch is cut into chunks (100 keys for a read, 25 items for
a write), the service may leave part of a chunk unprocessed, and it rejects a chunk that names one key
twice; the adapter then reports nothing found or nothing written for the whole call.
*/
module DynamoBatch {
  import opened Wrappers

  /** `None` is an absent attribute. */
  datatype Item<V> = Item(value: Option<V>, expiresAtMs: Option<int>, expiresAt: Option<int>)

  type Table<V> = map<string, Item<V>>

  datatype Entry<V> = Entry(key: string, value: Option<V>, expires: Option<int>)

  predicate Expired<V>(item: Item<V>, now: int) {
    match item.expiresAtMs
    case Some(ms) => ms <= now
    case None =>
      match item.expiresAt
      case Some(s) => (s - 1) * 1000 <= now
      case None => false
  }

  function ValueAt<V>(t: Table<V>, id: string, now: int): Option<V> {
    if id in t && !Expired(t[id], now) then t[id].value else None
  }

  predicate Distinct(ids: seq<string>) {
    forall i, j :: 0 <= i < j < |ids| ==> ids[i] != ids[j]
  }

  /** The n-th chunk, counted from 0. */
  function Chunk(ids: seq<string>, size: nat, n: nat): seq<string> {
    if n * size <= |ids| then ids[n * size..Min(n * size + size, |ids|)] else []
  }

  /** No chunk names a key twice. */
  ghost predicate ChunksDistinct(ids: seq<string>, size: nat) {
    forall n :: 0 <= n ==> Distinct(Chunk(ids, size, n))
  }

  lemma DistinctChunks(ids: seq<string>, size: nat)
    requires Distinct(ids)
    ensures ChunksDistinct(ids, size)
  {}

  /** The items of the flagged positions are put, in order. */
  function PutAll<V>(t: Table<V>, puts: seq<(string, Item<V>)>, written: seq<bool>): Table<V>
    requires |puts| == |written|
  {
    if puts == [] then t
    else
      var u := PutAll(t, puts[..|puts| - 1], written[..|written| - 1]);
      if written[|written| - 1] then u[puts[|puts| - 1].0 := puts[|puts| - 1].1] else u
  }

  lemma OneMorePut<V>(t: Table<V>, puts: seq<(string, Item<V>)>, written: seq<bool>, id: string)
    requires |puts| == |written| > 0
    ensures var last := |puts| - 1;
            Lookup(PutAll(t, puts, written), id)
            == if written[last] && puts[last].0 == id then Some(puts[last].1)
               else Lookup(PutAll(t, puts[..last], written[..last]), id)
  {}

  /** The last written put of a key is what it holds; a key without one holds what it held. */
  lemma {:induction false} LastPut<V>(t: Table<V>, puts: seq<(string, Item<V>)>, written: seq<bool>, i: nat)
    requires |puts| == |written| && i < |puts| && written[i]
    requires forall j :: i < j < |puts| && written[j] ==> puts[j].0 != puts[i].0
    ensures Lookup(PutAll(t, puts, written), puts[i].0) == Some(puts[i].1)
  {
    hide PutAll;
    OneMorePut(t, puts, written, puts[i].0);
    if i < |puts| - 1 { LastPut(t, puts[..|puts| - 1], written[..|puts| - 1], i); }
  }

  lemma {:induction false} UnnamedStays<V>(t: Table<V>, puts: seq<(string, Item<V>)>, written: seq<bool>, id: string)
    requires |puts| == |written| && forall i :: 0 <= i < |puts| && written[i] ==> puts[i].0 != id
    ensures Lookup(PutAll(t, puts, written), id) == Lookup(t, id)
  {
    if puts != [] {
      OneMorePut(t, puts, written, id);
      UnnamedStays(t, puts[..|puts| - 1], written[..|puts| - 1], id);
    }
  }

  class DynamoDB<V> {
    var table: Table<V>

    constructor ()
      ensures table == map[]
    {
      table := map[];
    }

    /** `BatchGetItem`: `None` when a key is named twice, otherwise the items of a non-empty part of the
        keys, and the keys left unprocessed. */
    method BatchGet(ids: seq<string>) returns (r: Option<(seq<(string, Item<V>)>, seq<string>)>)
      requires 0 < |ids| <= 100
      ensures r.None? <==> !Distinct(ids)
      ensures r.Some? ==>
                && |r.value.1| < |ids| && Distinct(r.value.1) && (forall k :: k in r.value.1 ==> k in ids)
                && (forall i :: 0 <= i < |r.value.0| ==>
                      r.value.0[i].0 in ids && r.value.0[i].0 in table && r.value.0[i].1 == table[r.value.0[i].0])
                && (forall k :: k in ids && k !in r.value.1 && k in table ==> (k, table[k]) in r.value.0)
    {
      if !Distinct(ids) { return None; }
      var processed: nat :| 0 < processed <= |ids|;
      var items: seq<(string, Item<V>)> := [];
      for i := 0 to processed
        invariant forall j :: 0 <= j < |items| ==>
          items[j].0 in ids && items[j].0 in table && items[j].1 == table[items[j].0]
        invariant forall k :: k in ids[..i] && k in table ==> (k, table[k]) in items
      {
        if ids[i] in table { items := items + [(ids[i], table[ids[i]])]; }
      }
      r := Some((items, ids[processed..]));
      assert ids == ids[..processed] + ids[processed..];
    }

    /** `BatchWriteItem`: `None` when a key is named twice, otherwise which puts were done. */
    method BatchWrite(puts: seq<(string, Item<V>)>) returns (r: Option<seq<bool>>)
      requires 0 < |puts| <= 25
      modifies this
      ensures r.None? <==> !Distinct(Ids(puts))
      ensures r.Some? ==> |r.value| == |puts| && table == PutAll(old(table), puts, r.value)
      ensures r.None? ==> table == old(table)
    {
      if !Distinct(Ids(puts)) { return None; }
      var done: seq<bool> := [];
      for i := 0 to |puts|
        invariant |done| == i && table == PutAll(old(table), puts[..i], done)
      {
        assert puts[..i + 1][..i] == puts[..i];
        var accepted: bool := *;
        if accepted { table := table[puts[i].0 := puts[i].1]; }
        done := done + [accepted];
      }
      assert puts[..|puts|] == puts;
      r := Some(done);
    }

    static function Ids(puts: seq<(string, Item<V>)>): (r: seq<string>)
      ensures |r| == |puts| && forall i :: 0 <= i < |r| ==> r[i] == puts[i].0
    {
      seq(|puts|, i requires 0 <= i < |puts| => puts[i].0)
    }
  }

  class KeyvDynamo<V> {
    const client: DynamoDB<V>
    const namespace: string
    const keyPrefixSeparator: string
    const sixHoursInMilliseconds: nat

    constructor (client: DynamoDB<V>, namespace: string, keyPrefixSeparator: string, sixHoursInMilliseconds: nat)
      ensures this.client == client && this.namespace == namespace && this.keyPrefixSeparator == keyPrefixSeparator
      ensures this.sixHoursInMilliseconds == sixHoursInMilliseconds
    {
      this.client := client;
      this.namespace := namespace;
      this.keyPrefixSeparator := keyPrefixSeparator;
      this.sixHoursInMilliseconds := sixHoursInMilliseconds;
    }

    function FormatKey(key: string): string {
      if namespace == "" then key
      else if namespace + keyPrefixSeparator <= key then key
      else namespace + keyPrefixSeparator + key
    }

    /** A formatted key is its own formatted key, so an expired item is deleted under the key it was read with,
        whatever the separator. */
    lemma FormatKeyTwice(key: string)
      ensures FormatKey(FormatKey(key)) == FormatKey(key)
    {
      assert namespace + keyPrefixSeparator <= namespace + keyPrefixSeparator + key;
    }

    /** The id of a key, spelled out: with the namespace and the separator in front, once. */
    ghost function IdOf(key: string): string {
      if namespace != "" && !(namespace + keyPrefixSeparator <= key) then namespace + keyPrefixSeparator + key else key
    }

    lemma IdsAre()
      ensures forall key :: FormatKey(key) == IdOf(key)
    {}

    /** The deadline of an item has come: to the millisecond when it is stored so, else a second early. */
    ghost predicate Over(item: Item<V>, now: int) {
      && (item.expiresAtMs.Some? ==> now >= item.expiresAtMs.value)
      && (item.expiresAtMs.None? ==> item.expiresAt.Some? && now >= 1000 * (item.expiresAt.value - 1))
    }

    /** What a read finds under a key. */
    ghost predicate ReadsAs(t: Table<V>, key: string, now: int, value: Option<V>) {
      value == if IdOf(key) in t && !Over(t[IdOf(key)], now) then t[IdOf(key)].value else None
    }

    /** A read leaves all items but those it was asked for whose deadline has come. */
    ghost predicate ReadLeaves(before: Table<V>, after: Table<V>, keys: seq<string>, now: int) {
      forall id :: Lookup(after, id) ==
        if id in before && Over(before[id], now) && (exists i :: 0 <= i < |keys| && IdOf(keys[i]) == id)
        then None else Lookup(before, id)
    }

    lemma ReadsAre(t: Table<V>, keys: seq<string>, now: int)
      ensures ReadLeaves(t, Reaped(t, Formatted(keys), now), keys, now)
      ensures forall i :: 0 <= i < |keys| ==> ReadsAs(t, keys[i], now, ValueAt(t, Formatted(keys)[i], now))
    {
      IdsAre();
      hide IdOf, FormatKey;
      forall id ensures id in Formatted(keys) <==> exists i :: 0 <= i < |keys| && IdOf(keys[i]) == id {
        if i :| 0 <= i < |keys| && IdOf(keys[i]) == id { assert Formatted(keys)[i] == id; }
      }
    }

    function Formatted(keys: seq<string>): (r: seq<string>)
      ensures |r| == |keys| && forall i :: 0 <= i < |r| ==> r[i] == FormatKey(keys[i])
    {
      seq(|keys|, i requires 0 <= i < |keys| => FormatKey(keys[i]))
    }

    method Delete(key: string) returns (deleted: bool)
      modifies client
      ensures client.table == old(client.table) - {FormatKey(key)}
      ensures deleted <==> FormatKey(key) in old(client.table)
    {
      deleted := FormatKey(key) in client.table;
      client.table := client.table - {FormatKey(key)};
    }

    // ----- Reads -----

    /** One chunk: asks again for the keys left unprocessed until none is left. */
    method ReadChunk(chunk: seq<string>) returns (items: Option<seq<(string, Item<V>)>>)
      requires |chunk| <= 100
      ensures items.None? <==> !Distinct(chunk)
      ensures items.Some? ==>
                && (forall i :: 0 <= i < |items.value| ==> Stored(items.value[i]))
                && (forall k :: k in chunk && k in client.table ==> (k, client.table[k]) in items.value)
    {
      var allItems: seq<(string, Item<V>)> := [];
      var unprocessedKeys := chunk;
      while |unprocessedKeys| > 0
        invariant |unprocessedKeys| <= 100 && (Distinct(unprocessedKeys) <==> Distinct(chunk))
        invariant forall k :: k in unprocessedKeys ==> k in chunk
        invariant forall i :: 0 <= i < |allItems| ==> Stored(allItems[i])
        invariant forall k :: k in chunk && k !in unprocessedKeys && k in client.table ==> (k, client.table[k]) in allItems
        decreases |unprocessedKeys|
      {
        var result := client.BatchGet(unprocessedKeys);
        if result.None? { return None; }
        allItems := allItems + result.value.0;
        unprocessedKeys := result.value.1;
      }
      items := Some(allItems);
    }

    ghost predicate Stored(item: (string, Item<V>))
      reads client
    {
      item.0 in client.table && item.1 == client.table[item.0]
    }

    /** The chunk loop `getMany` and `hasMany` share, and `new Map(allItems...)`. */
    method ReadChunks(ids: seq<string>) returns (itemMap: Option<map<string, Item<V>>>)
      ensures itemMap.None? <==> !ChunksDistinct(ids, 100)
      ensures itemMap.Some? ==> forall k :: k in ids ==>
                (k in itemMap.value <==> k in client.table) && (k in client.table ==> itemMap.value[k] == client.table[k])
    {
      var allItems: seq<(string, Item<V>)> := [];
      var i, n := 0, 0;
      while i < |ids|
        invariant i == n * 100
        invariant forall j :: 0 <= j < |allItems| ==> Stored(allItems[j])
        invariant forall k :: k in ids[..Min(i, |ids|)] && k in client.table ==> (k, client.table[k]) in allItems
        invariant forall m :: 0 <= m < n ==> Distinct(Chunk(ids, 100, m))
      {
        var end := Min(i + 100, |ids|);
        assert Chunk(ids, 100, n) == ids[i..end];
        var items := ReadChunk(ids[i..end]);
        if items.None? { return None; }
        assert ids[..end] == ids[..i] + ids[i..end];
        allItems := allItems + items.value;
        i, n := i + 100, n + 1;
      }
      assert ids[..|ids|] == ids;
      var m: map<string, Item<V>> := map[];
      for j := 0 to |allItems|
        invariant forall k :: k in m ==> Stored((k, m[k]))
        invariant forall h :: 0 <= h < j ==> allItems[h].0 in m
      {
        m := m[allItems[j].0 := allItems[j].1];
      }
      itemMap := Some(m);
    }

    /** `deleteMany(expiredKeys)` after a read. */
    method DeleteExpired(ids: seq<string>)
      requires forall i :: 0 <= i < |ids| ==> FormatKey(ids[i]) == ids[i]
      modifies client
      ensures client.table == map k | k in old(client.table) && k !in ids :: old(client.table)[k]
    {
      for i := 0 to |ids|
        invariant client.table == map k | k in old(client.table) && k !in ids[..i] :: old(client.table)[k]
      {
        var _ := Delete(ids[i]);
      }
    }

    /** What a read leaves: the expired items it met are gone. */
    function Reaped(t: Table<V>, ids: seq<string>, now: int): Table<V> {
      map k | k in t && !(k in ids && Expired(t[k], now)) :: t[k]
    }

    /** Each key's live value, in input order, with expired items removed; when a chunk names a key
        twice, nothing is found and nothing removed. */
    method GetMany(keys: seq<string>, now: int) returns (values: seq<Option<V>>)
      modifies client
      ensures |values| == |keys|
      ensures var ids := Formatted(keys);
              if ChunksDistinct(ids, 100)
              then client.table == Reaped(old(client.table), ids, now)
                   && forall i :: 0 <= i < |keys| ==> values[i] == ValueAt(old(client.table), ids[i], now)
              else client.table == old(client.table) && forall i :: 0 <= i < |keys| ==> values[i] == None
      ensures ChunksDistinct(Formatted(keys), 100) ==>
                && ReadLeaves(old(client.table), client.table, keys, now)
                && forall i :: 0 <= i < |keys| ==> ReadsAs(old(client.table), keys[i], now, values[i])
    {
      ReadsAre(client.table, keys, now);
      hide ReadLeaves, ReadsAs, ChunksDistinct;
      var ids := Formatted(keys);
      var itemMap := ReadChunks(ids);
      if itemMap.None? { return seq(|keys|, _ => None); }
      var expiredKeys;
      values, expiredKeys := LiveValues(ids, itemMap.value, now);
      ghost var before := client.table;
      FormattedTwice(keys, expiredKeys);
      DeleteExpired(expiredKeys);
      assert client.table == Reaped(before, ids, now);
    }

    /** The `map` callback of `getMany`. */
    method LiveValues(ids: seq<string>, itemMap: map<string, Item<V>>, now: int)
      returns (values: seq<Option<V>>, expiredKeys: seq<string>)
      ensures |values| == |ids| && forall i :: 0 <= i < |ids| ==> values[i] == ValueAt(itemMap, ids[i], now)
      ensures forall k :: k in expiredKeys <==> k in ids && k in itemMap && Expired(itemMap[k], now)
    {
      expiredKeys, values := [], [];
      for i := 0 to |ids|
        invariant |values| == i && forall j :: 0 <= j < i ==> values[j] == ValueAt(itemMap, ids[j], now)
        invariant forall k :: k in expiredKeys <==> k in ids[..i] && k in itemMap && Expired(itemMap[k], now)
      {
        if ids[i] !in itemMap {
          values := values + [None];
        } else if Expired(itemMap[ids[i]], now) {
          expiredKeys := expiredKeys + [ids[i]];
          values := values + [None];
        } else {
          values := values + [itemMap[ids[i]].value];
        }
      }
    }

    lemma FormattedTwice(keys: seq<string>, ids: seq<string>)
      requires forall k :: k in ids ==> k in Formatted(keys)
      ensures forall i :: 0 <= i < |ids| ==> FormatKey(ids[i]) == ids[i]
    {
      forall i | 0 <= i < |ids| ensures FormatKey(ids[i]) == ids[i] {
        assert ids[i] in Formatted(keys);
        var j :| 0 <= j < |keys| && Formatted(keys)[j] == ids[i];
        FormatKeyTwice(keys[j]);
      }
    }

    predicate ExpiredValue(t: Table<V>, id: string, now: int) {
      id in t && t[id].value.Some? && Expired(t[id], now)
    }

    /** What `hasMany` leaves. */
    function ReapedValues(t: Table<V>, ids: seq<string>, now: int): Table<V> {
      map k | k in t && !(k in ids && ExpiredValue(t, k, now)) :: t[k]
    }

    /** Whether each key has a live value; an expired item without a value is not removed. */
    method HasMany(keys: seq<string>, now: int) returns (results: seq<bool>)
      modifies client
      ensures |results| == |keys|
      ensures var ids := Formatted(keys);
              if ChunksDistinct(ids, 100)
              then client.table == ReapedValues(old(client.table), ids, now)
                   && (forall i :: 0 <= i < |keys| ==> (results[i] <==> ValueAt(old(client.table), ids[i], now).Some?))
              else client.table == old(client.table) && forall i :: 0 <= i < |keys| ==> !results[i]
      ensures ChunksDistinct(Formatted(keys), 100) ==>
                forall i :: 0 <= i < |keys| ==>
                  (results[i] <==> exists value :: ReadsAs(old(client.table), keys[i], now, Some(value)))
    {
      ReadsAre(client.table, keys, now);
      hide ReadLeaves, ChunksDistinct;
      var ids := Formatted(keys);
      var itemMap := ReadChunks(ids);
      if itemMap.None? { return seq(|keys|, _ => false); }
      var expiredKeys;
      results, expiredKeys := Present(ids, itemMap.value, now);
      ghost var before := client.table;
      FormattedTwice(keys, expiredKeys);
      DeleteExpired(expiredKeys);
      assert client.table == ReapedValues(before, ids, now);
    }

    /** The `map` callback of `hasMany`. */
    method Present(ids: seq<string>, itemMap: map<string, Item<V>>, now: int) returns (results: seq<bool>, expiredKeys: seq<string>)
      ensures |results| == |ids| && forall i :: 0 <= i < |ids| ==> (results[i] <==> ValueAt(itemMap, ids[i], now).Some?)
      ensures forall k :: k in expiredKeys <==> k in ids && ExpiredValue(itemMap, k, now)
    {
      expiredKeys, results := [], [];
      for i := 0 to |ids|
        invariant |results| == i && forall j :: 0 <= j < i ==> (results[j] <==> ValueAt(itemMap, ids[j], now).Some?)
        invariant forall k :: k in expiredKeys <==> k in ids[..i] && ExpiredValue(itemMap, k, now)
      {
        if ids[i] !in itemMap || itemMap[ids[i]].value.None? {
          results := results + [false];
        } else if Expired(itemMap[ids[i]], now) {
          expiredKeys := expiredKeys + [ids[i]];
          results := results + [false];
        } else {
          results := results + [true];
        }
      }
    }

    // ----- Writes -----

    function Put(e: Entry<V>, now: int): (string, Item<V>) {
      var expiresAtMs := e.expires.GetOr(now + sixHoursInMilliseconds);
      (FormatKey(e.key), Item(e.value, Some(expiresAtMs), Some(CeilSeconds(expiresAtMs))))
    }

    function Puts(entries: seq<Entry<V>>, now: int): (r: seq<(string, Item<V>)>)
      ensures |r| == |entries| && forall i :: 0 <= i < |r| ==> r[i] == Put(entries[i], now)
    {
      seq(|entries|, i requires 0 <= i < |entries| => Put(entries[i], now))
    }

    /** `keyToIndex`: for a key given twice, the later index. */
    method IndexById(puts: seq<(string, Item<V>)>) returns (keyToIndex: map<string, nat>)
      ensures forall i :: 0 <= i < |puts| ==>
                puts[i].0 in keyToIndex && i <= keyToIndex[puts[i].0] < |puts| && puts[keyToIndex[puts[i].0]].0 == puts[i].0
    {
      keyToIndex := map[];
      for i := 0 to |puts|
        invariant forall k :: k in keyToIndex ==> keyToIndex[k] < i && puts[keyToIndex[k]].0 == k
        invariant forall j :: 0 <= j < i ==> puts[j].0 in keyToIndex && j <= keyToIndex[puts[j].0]
      {
        keyToIndex := keyToIndex[puts[i].0 := i];
      }
    }

    /** The deadline and its whole second: the one given, or a default time from now. */
    ghost predicate DeadlineIs(item: Item<V>, expires: Option<int>, now: int) {
      && item.expiresAtMs == Some(if expires.Some? then expires.value else now + sixHoursInMilliseconds)
      && item.expiresAt.Some? && 1000 * (item.expiresAt.value - 1) < item.expiresAtMs.value <= 1000 * item.expiresAt.value
    }

    /** The last written entry of an id is what it holds, value and deadline; other items are as before. */
    ghost predicate StoredAsGiven(before: Table<V>, after: Table<V>, entries: seq<Entry<V>>, written: seq<bool>, now: int)
      requires |written| == |entries|
    {
      && (forall i :: 0 <= i < |entries| && LastWritten(entries, written, i) ==>
            && IdOf(entries[i].key) in after && after[IdOf(entries[i].key)].value == entries[i].value
            && DeadlineIs(after[IdOf(entries[i].key)], entries[i].expires, now))
      && (forall id :: Unwritten(entries, written, id) ==> Lookup(after, id) == Lookup(before, id))
    }

    ghost predicate LastWritten(entries: seq<Entry<V>>, written: seq<bool>, i: nat)
      requires |written| == |entries| && i < |entries|
    {
      written[i] && forall j :: i < j < |entries| && written[j] ==> IdOf(entries[j].key) != IdOf(entries[i].key)
    }

    ghost predicate Unwritten(entries: seq<Entry<V>>, written: seq<bool>, id: string)
      requires |written| == |entries|
    {
      forall i :: 0 <= i < |entries| && written[i] ==> IdOf(entries[i].key) != id
    }

    lemma PutIs(e: Entry<V>, now: int)
      ensures Put(e, now).0 == IdOf(e.key) && Put(e, now).1.value == e.value && DeadlineIs(Put(e, now).1, e.expires, now)
    {}

    lemma LastPutIs(t: Table<V>, entries: seq<Entry<V>>, written: seq<bool>, now: int, i: nat)
      requires |written| == |entries| && i < |entries| && LastWritten(entries, written, i)
      ensures Lookup(PutAll(t, Puts(entries, now), written), IdOf(entries[i].key)) == Some(Put(entries[i], now).1)
    {
      hide PutAll, IdOf, Put, DeadlineIs;
      forall j | 0 <= j < |entries| ensures Put(entries[j], now).0 == IdOf(entries[j].key) { PutIs(entries[j], now); }
      LastPut(t, Puts(entries, now), written, i);
    }

    lemma UnnamedIs(t: Table<V>, entries: seq<Entry<V>>, written: seq<bool>, now: int, id: string)
      requires |written| == |entries| && Unwritten(entries, written, id)
      ensures Lookup(PutAll(t, Puts(entries, now), written), id) == Lookup(t, id)
    {
      hide PutAll, IdOf, Put, DeadlineIs;
      forall j | 0 <= j < |entries| ensures Put(entries[j], now).0 == IdOf(entries[j].key) { PutIs(entries[j], now); }
      UnnamedStays(t, Puts(entries, now), written, id);
    }

    lemma StoredAre(t: Table<V>, entries: seq<Entry<V>>, written: seq<bool>, now: int)
      requires |written| == |entries|
      ensures StoredAsGiven(t, PutAll(t, Puts(entries, now), written), entries, written, now)
    {
      hide PutAll, IdOf, Put, Puts, DeadlineIs, LastWritten, Unwritten;
      var after := PutAll(t, Puts(entries, now), written);
      forall i | 0 <= i < |entries| && LastWritten(entries, written, i)
        ensures Lookup(after, IdOf(entries[i].key)) == Some(Put(entries[i], now).1)
        ensures Put(entries[i], now).1.value == entries[i].value && DeadlineIs(Put(entries[i], now).1, entries[i].expires, now)
      {
        LastPutIs(t, entries, written, now, i);
        PutIs(entries[i], now);
      }
      forall id | Unwritten(entries, written, id) ensures Lookup(after, id) == Lookup(t, id) {
        UnnamedIs(t, entries, written, now, id);
      }
    }

    /** Exactly the puts the service did are stored, with their deadlines.  With distinct keys exactly those are
        reported; a repeated key is reported under its last index, as failed when any of its puts was left. */
    method SetMany(entries: seq<Entry<V>>, now: int) returns (results: seq<bool>, ghost written: seq<bool>)
      modifies client
      ensures |results| == |written| == |entries|
      ensures var puts := Puts(entries, now);
              client.table == PutAll(old(client.table), puts, written)
              && if ChunksDistinct(DynamoDB<V>.Ids(puts), 25)
                 then forall i :: 0 <= i < |entries| ==>
                        (results[i] <==> !(Last(puts, i) && exists j :: 0 <= j < |puts| && puts[j].0 == puts[i].0 && !written[j]))
                 else forall i :: 0 <= i < |entries| ==> !results[i]
      ensures Distinct(DynamoDB<V>.Ids(Puts(entries, now))) ==> results == written
      ensures StoredAsGiven(old(client.table), client.table, entries, written, now)
    {
      hide PutAll, StoredAsGiven, Distinct, ChunksDistinct;
      ghost var before := client.table;
      results, written := StoreAll(entries, now);
      StoredAre(before, entries, written, now);
    }

    /** What was written and reported is read back until its deadline. */
    method WriteThenRead(e: Entry<V>, at: int, now: int) returns (ok: bool, values: seq<Option<V>>)
      modifies client
      ensures ok ==> values == [if now < (if e.expires.Some? then e.expires.value else at + sixHoursInMilliseconds)
                                then e.value else None]
    {
      hide PutAll, IdOf;
      var entries := [e];
      var results;
      ghost var written;
      results, written := SetMany(entries, at);
      ok := results[0];
      OneIsDistinct(DynamoDB<V>.Ids(Puts(entries, at)));
      OneIsDistinct(Formatted([e.key]));
      assert entries[0] == e;
      ghost var t := client.table;
      assert ok ==> IdOf(e.key) in t && t[IdOf(e.key)].value == e.value && DeadlineIs(t[IdOf(e.key)], e.expires, at);
      values := GetMany([e.key], now);
      assert ReadsAs(t, [e.key][0], now, values[0]);
    }

    lemma OneIsDistinct(ids: seq<string>)
      requires |ids| == 1
      ensures Distinct(ids) && ChunksDistinct(ids, 100)
    {
      DistinctChunks(ids, 100);
    }

    method StoreAll(entries: seq<Entry<V>>, now: int) returns (results: seq<bool>, ghost written: seq<bool>)
      modifies client
      ensures |results| == |written| == |entries|
      ensures var puts := Puts(entries, now);
              client.table == PutAll(old(client.table), puts, written)
              && if ChunksDistinct(DynamoDB<V>.Ids(puts), 25)
                 then forall i :: 0 <= i < |entries| ==>
                        (results[i] <==> !(Last(puts, i) && exists j :: 0 <= j < |puts| && puts[j].0 == puts[i].0 && !written[j]))
                 else forall i :: 0 <= i < |entries| ==> !results[i]
      ensures Distinct(DynamoDB<V>.Ids(Puts(entries, now))) ==> results == written
    {
      var puts := Puts(entries, now);
      var flags := new bool[|puts|](_ => true);
      var keyToIndex := IndexById(puts);
      var ok;
      ok, written := WriteChunks(puts, keyToIndex, flags);
      results := if ok then flags[..] else seq(|entries|, _ => false);
      if ok { Reported(puts, keyToIndex, written, results); }
      if Distinct(DynamoDB<V>.Ids(puts)) { DistinctChunks(DynamoDB<V>.Ids(puts), 25); }
    }

    /** The chunk loop; it ends at a chunk the service rejects. */
    method WriteChunks(puts: seq<(string, Item<V>)>, keyToIndex: map<string, nat>, flags: array<bool>)
      returns (ok: bool, ghost written: seq<bool>)
      requires flags.Length == |puts| && forall i :: 0 <= i < |puts| ==> flags[i]
      requires forall i :: 0 <= i < |puts| ==> puts[i].0 in keyToIndex && keyToIndex[puts[i].0] < |puts|
      modifies client, flags
      ensures |written| == |puts| && client.table == PutAll(old(client.table), puts, written)
      ensures ok <==> ChunksDistinct(DynamoDB<V>.Ids(puts), 25)
      ensures ok ==> Marked(puts, keyToIndex, written, flags[..])
    {
      hide Marked, PutAll, Distinct, Chunk, ChunksDistinct;
      ghost var before, ids := client.table, DynamoDB<V>.Ids(puts);
      NothingMarked(before, puts, keyToIndex, flags[..]);
      written := [];
      var i, n := 0, 0;
      while i < |puts|
        invariant i == n * 25 && |written| == Min(i, |puts|)
        invariant client.table == PutAll(before, puts[..|written|], written)
        invariant forall m :: 0 <= m < n ==> Distinct(Chunk(ids, 25, m))
        invariant Marked(puts, keyToIndex, written, flags[..])
      {
        var end := Min(i + 25, |puts|);
        ChunkIds(puts, n);
        var response := client.BatchWrite(puts[i..end]);
        if response.None? {
          ghost var done := |written|;
          written := written + seq(|puts| - done, _ => false);
          PutNone(before, puts, written, done);
          NotDistinct(ids, n);
          return false, written;
        }
        MarkUnprocessed(puts, i, response.value, keyToIndex, flags, written);
        PutMore(before, puts[..i], written, puts[i..end], response.value);
        assert puts[..end] == puts[..i] + puts[i..end];
        written := written + response.value;
        i, n := i + 25, n + 1;
      }
      assert puts[..|puts|] == puts;
      AllDistinct(ids, n);
      ok := true;
    }

    lemma NothingMarked(t: Table<V>, puts: seq<(string, Item<V>)>, keyToIndex: map<string, nat>, flags: seq<bool>)
      requires |flags| == |puts| && forall i :: 0 <= i < |puts| ==> flags[i]
      ensures Marked(puts, keyToIndex, [], flags) && PutAll(t, puts[..0], []) == t
    {}

    lemma NotDistinct(ids: seq<string>, n: nat)
      requires !Distinct(Chunk(ids, 25, n))
      ensures !ChunksDistinct(ids, 25)
    {}

    lemma AllDistinct(ids: seq<string>, count: nat)
      requires count * 25 >= |ids| && forall n :: 0 <= n < count ==> Distinct(Chunk(ids, 25, n))
      ensures ChunksDistinct(ids, 25)
    {
      forall n | n >= count ensures Distinct(Chunk(ids, 25, n)) { assert |Chunk(ids, 25, n)| == 0; }
    }

    lemma ChunkIds(puts: seq<(string, Item<V>)>, n: nat)
      requires n * 25 <= |puts|
      ensures Chunk(DynamoDB<V>.Ids(puts), 25, n) == DynamoDB<V>.Ids(puts[n * 25..Min(n * 25 + 25, |puts|)])
    {}

    lemma Reported(puts: seq<(string, Item<V>)>, keyToIndex: map<string, nat>, written: seq<bool>, flags: seq<bool>)
      requires forall i :: 0 <= i < |puts| ==>
                 puts[i].0 in keyToIndex && i <= keyToIndex[puts[i].0] < |puts| && puts[keyToIndex[puts[i].0]].0 == puts[i].0
      requires |written| == |puts| && Marked(puts, keyToIndex, written, flags)
      ensures forall i :: 0 <= i < |puts| ==>
                (flags[i] <==> !(Last(puts, i) && exists j :: 0 <= j < |puts| && puts[j].0 == puts[i].0 && !written[j]))
      ensures Distinct(DynamoDB<V>.Ids(puts)) ==> flags == written
    {
      LastIndex(puts, keyToIndex);
      if Distinct(DynamoDB<V>.Ids(puts)) {
        forall i | 0 <= i < |puts| ensures flags[i] == written[i] {
          assert forall j :: 0 <= j < |puts| && j != i ==> DynamoDB<V>.Ids(puts)[j] != DynamoDB<V>.Ids(puts)[i];
        }
      }
    }

    /** Position `i` is the last of its key. */
    ghost predicate Last(puts: seq<(string, Item<V>)>, i: nat)
      requires i < |puts|
    {
      forall j :: i < j < |puts| ==> puts[j].0 != puts[i].0
    }

    /** The flags after some chunks: false exactly at the index of a key some put of which was left. */
    ghost predicate Marked(puts: seq<(string, Item<V>)>, keyToIndex: map<string, nat>, written: seq<bool>, flags: seq<bool>) {
      && |flags| == |puts| && |written| <= |puts|
      && forall i :: 0 <= i < |puts| ==> (!flags[i] <==> Left(puts, keyToIndex, written, i))
    }

    ghost predicate Left(puts: seq<(string, Item<V>)>, keyToIndex: map<string, nat>, written: seq<bool>, i: nat)
      requires |written| <= |puts|
    {
      exists j :: 0 <= j < |written| && !written[j] && puts[j].0 in keyToIndex && keyToIndex[puts[j].0] == i
    }

    /** `for (const item of unprocessed) ... results[index] = false`. */
    method MarkUnprocessed(puts: seq<(string, Item<V>)>, start: nat, done: seq<bool>, keyToIndex: map<string, nat>,
                           flags: array<bool>, ghost written: seq<bool>)
      requires start == |written| && start + |done| <= |puts| == flags.Length
      requires forall i :: 0 <= i < |puts| ==> puts[i].0 in keyToIndex && keyToIndex[puts[i].0] < |puts|
      requires Marked(puts, keyToIndex, written, flags[..])
      modifies flags
      ensures Marked(puts, keyToIndex, written + done, flags[..])
    {
      for j := 0 to |done|
        invariant Marked(puts, keyToIndex, written + done[..j], flags[..])
      {
        ghost var earlier := flags[..];
        if !done[j] { flags[keyToIndex[puts[start + j].0]] := false; }
        LeftMore(puts, keyToIndex, written + done[..j], done[j]);
        assert written + done[..j + 1] == written + done[..j] + [done[j]];
      }
      assert done[..|done|] == done;
    }

    lemma LeftMore(puts: seq<(string, Item<V>)>, keyToIndex: map<string, nat>, written: seq<bool>, flag: bool)
      requires |written| < |puts| && puts[|written|].0 in keyToIndex
      ensures forall i :: Left(puts, keyToIndex, written + [flag], i) <==>
                Left(puts, keyToIndex, written, i) || (!flag && keyToIndex[puts[|written|].0] == i)
    {
      forall i: nat ensures Left(puts, keyToIndex, written + [flag], i) <==>
          Left(puts, keyToIndex, written, i) || (!flag && keyToIndex[puts[|written|].0] == i) {
        if Left(puts, keyToIndex, written, i) {
          var j :| 0 <= j < |written| && !written[j] && puts[j].0 in keyToIndex && keyToIndex[puts[j].0] == i;
          assert !(written + [flag])[j];
        }
        if !flag { assert !(written + [flag])[|written|]; }
      }
    }

    lemma LastIndex(puts: seq<(string, Item<V>)>, keyToIndex: map<string, nat>)
      requires forall i :: 0 <= i < |puts| ==>
                 puts[i].0 in keyToIndex && i <= keyToIndex[puts[i].0] < |puts| && puts[keyToIndex[puts[i].0]].0 == puts[i].0
      ensures forall i, j :: 0 <= i < |puts| && 0 <= j < |puts| ==>
                (keyToIndex[puts[j].0] == i <==> puts[j].0 == puts[i].0 && Last(puts, i))
    {}

    lemma {:induction false} PutMore(t: Table<V>, a: seq<(string, Item<V>)>, f: seq<bool>, b: seq<(string, Item<V>)>, g: seq<bool>)
      requires |a| == |f| && |b| == |g|
      ensures PutAll(t, a + b, f + g) == PutAll(PutAll(t, a, f), b, g)
      decreases |b|
    {
      if b == [] {
        assert a + b == a && f + g == f;
      } else {
        var last := |b| - 1;
        PutMore(t, a, f, b[..last], g[..last]);
        assert (a + b)[..|a + b| - 1] == a + b[..last] && (f + g)[..|f + g| - 1] == f + g[..last];
      }
    }

    lemma {:induction false} PutNone(t: Table<V>, puts: seq<(string, Item<V>)>, written: seq<bool>, done: nat)
      requires done <= |puts| == |written| && forall i :: done <= i < |puts| ==> !written[i]
      ensures PutAll(t, puts, written) == PutAll(t, puts[..done], written[..done])
      decreases |puts|
    {
      if done == |puts| {
        assert puts[..done] == puts && written[..done] == written;
      } else {
        var last := |puts| - 1;
        PutNone(t, puts[..last], written[..last], done);
        assert puts[..last][..done] == puts[..done] && written[..last][..done] == written[..done];
      }
    }
  }
}

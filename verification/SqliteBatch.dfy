/**
Batched operations of the SQLite adapter.  SQLite binds at most 999 parameters in one statement, so the
adapter cuts its input into batches; here the bound is a precondition of every statement.
*/
module SqliteBatch {
  import opened Wrappers

  /** A `None` value is SQL `NULL`. */
  datatype Row<V> = Row(value: Option<V>, expires: Option<int>)

  type Table<V> = map<(string, string), Row<V>>

  datatype Entry<V> = Entry(key: string, value: Option<V>, expires: Option<int>)

  const MAX_PARAMETERS: nat := 999

  predicate Expired<V>(row: Row<V>, now: int) {
    row.expires.Some? && row.expires.value <= now
  }

  function Without<V>(t: Table<V>, ns: string, keys: seq<string>): Table<V> {
    map p | p in t && !(p.0 == ns && p.1 in keys) :: t[p]
  }

  /** The table after reads of `keys`: their expired rows are gone. */
  function Reaped<V>(t: Table<V>, ns: string, keys: seq<string>, now: int): Table<V> {
    map p | p in t && !(p.0 == ns && p.1 in keys && Expired(t[p], now)) :: t[p]
  }

  predicate Live<V>(t: Table<V>, ns: string, key: string, now: int) {
    (ns, key) in t && !Expired(t[(ns, key)], now)
  }

  /** What a read of one key yields. */
  function ValueAt<V>(t: Table<V>, ns: string, key: string, now: int): Option<V> {
    if Live(t, ns, key, now) then t[(ns, key)].value else None
  }

  // ----- The single forms, folded over a list -----

  /** Reads one key after the other, each on the table its predecessors left. */
  function GetEach<V>(t: Table<V>, ns: string, keys: seq<string>, now: int): (r: (Table<V>, seq<Option<V>>)) {
    if keys == [] then (t, [])
    else
      var (u, values) := GetEach(t, ns, keys[..|keys| - 1], now);
      (Reaped(u, ns, [keys[|keys| - 1]], now), values + [ValueAt(u, ns, keys[|keys| - 1], now)])
  }

  function DeleteEach<V>(t: Table<V>, ns: string, keys: seq<string>): (r: (Table<V>, seq<bool>)) {
    if keys == [] then (t, [])
    else
      var (u, deleted) := DeleteEach(t, ns, keys[..|keys| - 1]);
      (Without(u, ns, [keys[|keys| - 1]]), deleted + [(ns, keys[|keys| - 1]) in u])
  }

  function SetOne<V>(t: Table<V>, ns: string, e: Entry<V>): Table<V> {
    t[(ns, e.key) := Row(e.value, e.expires)]
  }

  function SetEach<V>(t: Table<V>, ns: string, entries: seq<Entry<V>>): Table<V> {
    if entries == [] then t
    else SetOne(SetEach(t, ns, entries[..|entries| - 1]), ns, entries[|entries| - 1])
  }

  /** Reading keys one by one yields, for each, what the untouched table holds, also for repeated keys. */
  lemma {:induction false} GetEachIsPointwise<V>(t: Table<V>, ns: string, keys: seq<string>, now: int)
    ensures GetEach(t, ns, keys, now).0 == Reaped(t, ns, keys, now)
    ensures |GetEach(t, ns, keys, now).1| == |keys|
    ensures forall i :: 0 <= i < |keys| ==> GetEach(t, ns, keys, now).1[i] == ValueAt(t, ns, keys[i], now)
  {
    if keys != [] { GetEachIsPointwise(t, ns, keys[..|keys| - 1], now); }
  }

  /** Deleting one by one reports only the first of repeated keys as deleted. */
  lemma {:induction false} DeleteEachIsPointwise<V>(t: Table<V>, ns: string, keys: seq<string>)
    ensures DeleteEach(t, ns, keys).0 == Without(t, ns, keys)
    ensures |DeleteEach(t, ns, keys).1| == |keys|
    ensures forall i :: 0 <= i < |keys| ==>
              (DeleteEach(t, ns, keys).1[i] <==> (ns, keys[i]) in t && keys[i] !in keys[..i])
  {
    if keys != [] {
      var front := keys[..|keys| - 1];
      DeleteEachIsPointwise(t, ns, front);
      assert forall i :: 0 <= i < |front| ==> front[..i] == keys[..i];
    }
  }

  // ----- The database -----

  class Database<V> {
    var table: Table<V>
    /** How many statements were sent. */
    var statements: nat

    constructor ()
      ensures table == map[] && statements == 0
    {
      table := map[];
      statements := 0;
    }

    /** `SELECT * ... WHERE key IN (...) AND namespace = ?`: the matching rows, each once. */
    method SelectIn(keys: seq<string>, ns: string) returns (rows: seq<(string, Row<V>)>)
      requires |keys| + 1 <= MAX_PARAMETERS
      modifies this`statements
      ensures statements == old(statements) + 1
      ensures |rows| <= |keys|
      ensures forall i :: 0 <= i < |rows| ==> rows[i].0 in keys && (ns, rows[i].0) in table && rows[i].1 == table[(ns, rows[i].0)]
      ensures forall k :: k in keys && (ns, k) in table ==> (k, table[(ns, k)]) in rows
    {
      statements := statements + 1;
      rows := [];
      for i := 0 to |keys|
        invariant |rows| <= i
        invariant forall j :: 0 <= j < |rows| ==> rows[j].0 in keys && (ns, rows[j].0) in table && rows[j].1 == table[(ns, rows[j].0)]
        invariant forall k :: k in keys[..i] && (ns, k) in table ==> (k, table[(ns, k)]) in rows
      {
        if (ns, keys[i]) in table && keys[i] !in keys[..i] {
          rows := rows + [(keys[i], table[(ns, keys[i])])];
        }
      }
    }

    /** `DELETE ... WHERE key IN (...) AND namespace = ? RETURNING key`. */
    method DeleteIn(keys: seq<string>, ns: string) returns (deleted: seq<string>)
      requires |keys| + 1 <= MAX_PARAMETERS
      modifies this
      ensures statements == old(statements) + 1
      ensures table == Without(old(table), ns, keys)
      ensures forall k :: k in deleted <==> k in keys && (ns, k) in old(table)
    {
      statements := statements + 1;
      deleted := [];
      for i := 0 to |keys|
        invariant statements == old(statements) + 1 && table == old(table)
        invariant forall k :: k in deleted <==> k in keys[..i] && (ns, k) in table
      {
        if (ns, keys[i]) in table { deleted := deleted + [keys[i]]; }
      }
      table := Without(table, ns, keys);
    }

    /** A multi-row `INSERT ... ON CONFLICT DO UPDATE`: all rows in order, or, when refused, none. */
    method Upsert(rows: seq<Entry<V>>, ns: string, accepted: bool)
      requires 4 * |rows| <= MAX_PARAMETERS
      modifies this
      ensures statements == old(statements) + 1
      ensures table == if accepted then SetEach(old(table), ns, rows) else old(table)
    {
      statements := statements + 1;
      if accepted {
        for i := 0 to |rows|
          invariant statements == old(statements) + 1
          invariant table == SetEach(old(table), ns, rows[..i])
        {
          assert rows[..i + 1][..i] == rows[..i];
          table := SetOne(table, ns, rows[i]);
        }
        assert rows[..|rows|] == rows;
      }
    }
  }

  // ----- The adapter -----

  /** The number of batches, `ceil(n / size)`. */
  function Batches(n: nat, size: nat): nat
    requires size > 0
  {
    (n + size - 1) / size
  }

  lemma BatchesOf998(n: nat, count: nat)
    requires count * 998 >= n && (count > 0 ==> (count - 1) * 998 < n)
    ensures Batches(n, 998) == count
  {}

  lemma BatchesOf249(n: nat, count: nat)
    requires count * 249 >= n && (count > 0 ==> (count - 1) * 249 < n)
    ensures Batches(n, 249) == count
  {}

  /** Deleting the keys up to `i` and then those up to `end`. */
  lemma WithoutMore<V>(t: Table<V>, ns: string, keys: seq<string>, i: nat, end: nat)
    requires i <= end <= |keys|
    ensures Without(Without(t, ns, keys[..i]), ns, keys[i..end]) == Without(t, ns, keys[..end])
    ensures keys[..end] == keys[..i] + keys[i..end] && keys[..|keys|] == keys
  {
    assert keys[..end] == keys[..i] + keys[i..end];
  }

  lemma WithoutHas<V>(t: Table<V>, ns: string, keys: seq<string>)
    ensures forall k :: (ns, k) in Without(t, ns, keys) <==> (ns, k) in t && k !in keys
  {}

  lemma NothingWithout<V>(t: Table<V>, ns: string, keys: seq<string>)
    ensures Without(t, ns, keys[..0]) == t
  {}

  /** The entries whose flag is set, in order. */
  function Chosen<V>(entries: seq<Entry<V>>, flags: seq<bool>): (r: seq<Entry<V>>)
    requires |entries| == |flags|
  {
    if entries == [] then []
    else
      var front := Chosen(entries[..|entries| - 1], flags[..|flags| - 1]);
      if flags[|flags| - 1] then front + [entries[|entries| - 1]] else front
  }

  lemma {:induction false} SetEachAppends<V>(t: Table<V>, ns: string, a: seq<Entry<V>>, b: seq<Entry<V>>)
    ensures SetEach(t, ns, a + b) == SetEach(SetEach(t, ns, a), ns, b)
  {
    if b == [] {
      assert a + b == a;
    } else {
      SetEachAppends(t, ns, a, b[..|b| - 1]);
      assert (a + b)[..|a + b| - 1] == a + b[..|b| - 1];
    }
  }

  /** A batch whose flags are all equal is chosen whole or not at all. */
  lemma {:induction false} ChosenBatch<V>(entries: seq<Entry<V>>, flags: seq<bool>, i: nat, flag: bool)
    requires |entries| == |flags| && i <= |entries|
    requires forall j :: i <= j < |flags| ==> flags[j] == flag
    ensures Chosen(entries, flags) == Chosen(entries[..i], flags[..i]) + if flag then entries[i..] else []
    decreases |entries|
  {
    if i == |entries| {
      assert entries[..i] == entries && flags[..i] == flags;
    } else {
      var front, frontFlags := entries[..|entries| - 1], flags[..|flags| - 1];
      ChosenBatch(front, frontFlags, i, flag);
      assert front[..i] == entries[..i] && frontFlags[..i] == flags[..i];
      assert entries[i..] == front[i..] + [entries[|entries| - 1]];
    }
  }

  lemma ChosenMore<V>(front: seq<Entry<V>>, e: Entry<V>, flags: seq<bool>, flag: bool)
    requires |front| == |flags|
    ensures Chosen(front + [e], flags + [flag]) == if flag then Chosen(front, flags) + [e] else Chosen(front, flags)
  {
    assert (front + [e])[..|front|] == front && (flags + [flag])[..|flags|] == flags;
  }

  lemma SetEachMore<V>(t: Table<V>, ns: string, front: seq<Entry<V>>, e: Entry<V>)
    ensures SetEach(t, ns, front + [e]) == SetEach(t, ns, front)[(ns, e.key) := Row(e.value, e.expires)]
  {
    assert (front + [e])[..|front|] == front;
  }

  lemma OneMoreStored<V>(t: Table<V>, ns: string, entries: seq<Entry<V>>, flags: seq<bool>, p: (string, string))
    requires |entries| == |flags| > 0
    ensures var last := |entries| - 1;
            Lookup(SetEach(t, ns, Chosen(entries, flags)), p)
            == if flags[last] && (ns, entries[last].key) == p then Some(Row(entries[last].value, entries[last].expires))
               else Lookup(SetEach(t, ns, Chosen(entries[..last], flags[..last])), p)
  {
    var last := |entries| - 1;
    assert entries == entries[..last] + [entries[last]] && flags == flags[..last] + [flags[last]];
    ChosenMore(entries[..last], entries[last], flags[..last], flags[last]);
    SetEachMore(t, ns, Chosen(entries[..last], flags[..last]), entries[last]);
  }

  /** The last stored entry for a row is what the row holds. */
  lemma {:induction false} LastStored<V>(t: Table<V>, ns: string, entries: seq<Entry<V>>, flags: seq<bool>, i: nat)
    requires |entries| == |flags| && i < |entries| && flags[i]
    requires forall j :: i < j < |entries| && flags[j] ==> entries[j].key != entries[i].key
    ensures Lookup(SetEach(t, ns, Chosen(entries, flags)), (ns, entries[i].key)) == Some(Row(entries[i].value, entries[i].expires))
  {
    hide SetEach, Chosen;
    OneMoreStored(t, ns, entries, flags, (ns, entries[i].key));
    if i < |entries| - 1 { LastStored(t, ns, entries[..|entries| - 1], flags[..|flags| - 1], i); }
  }

  lemma {:induction false} UnnamedStays<V>(t: Table<V>, ns: string, entries: seq<Entry<V>>, flags: seq<bool>, p: (string, string))
    requires |entries| == |flags| && forall i :: 0 <= i < |entries| && flags[i] ==> (ns, entries[i].key) != p
    ensures Lookup(SetEach(t, ns, Chosen(entries, flags)), p) == Lookup(t, p)
  {
    if entries != [] {
      OneMoreStored(t, ns, entries, flags, p);
      UnnamedStays(t, ns, entries[..|entries| - 1], flags[..|flags| - 1], p);
    }
  }

  class KeyvSqlite<V> {
    const db: Database<V>
    const namespace: Option<string>

    constructor (db: Database<V>, namespace: Option<string>)
      ensures this.db == db && this.namespace == namespace
    {
      this.db := db;
      this.namespace := namespace;
    }

    function Namespace(): string { namespace.GetOr("") }

    function RemoveKeyPrefix(key: string): string {
      if namespace.Some? && namespace.value != "" && namespace.value + ":" <= key
      then key[|namespace.value| + 1..] else key
    }

    /** The row of a key, spelled out: the namespace column, and the key without a namespace it begins with. */
    ghost function RowOf(key: string): (string, string) {
      match namespace
      case None => ("", key)
      case Some(ns) => if ns != "" && ns + ":" <= key then (ns, key[|ns| + 1..]) else (ns, key)
    }

    lemma RowsAre()
      ensures forall key :: RowOf(key) == (Namespace(), RemoveKeyPrefix(key))
    {}

    /** Without the namespace in front of it, and with it, a key names one row. */
    lemma PrefixedKeyIsSame(ns: string, key: string)
      requires namespace == Some(ns) && ns != "" && !(ns + ":" <= key)
      ensures RowOf(key) == (ns, key) && RowOf(ns + ":" + key) == (ns, key)
    {
      assert (ns + ":" + key)[|ns| + 1..] == key;
    }

    /** What a read at `now` finds in a row: nothing once its deadline has come. */
    ghost predicate ReadsAs(t: Table<V>, key: string, now: int, value: Option<V>) {
      var p := RowOf(key);
      value == if p in t && (t[p].expires == None || now < t[p].expires.value) then t[p].value else None
    }

    /** A read removes the rows it was asked for whose deadline has come, and no others. */
    ghost predicate ReadLeaves(before: Table<V>, after: Table<V>, keys: seq<string>, now: int) {
      forall p :: Lookup(after, p) ==
        if p in before && before[p].expires.Some? && before[p].expires.value <= now
           && (exists i :: 0 <= i < |keys| && RowOf(keys[i]) == p)
        then None else Lookup(before, p)
    }

    lemma ReadsAre(t: Table<V>, keys: seq<string>, now: int)
      ensures ReadLeaves(t, Reaped(t, Namespace(), Stripped(keys), now), keys, now)
      ensures forall i :: 0 <= i < |keys| ==>
                ReadsAs(t, keys[i], now, ValueAt(t, Namespace(), RemoveKeyPrefix(keys[i]), now))
    {
      RowsAre();
      var after := Reaped(t, Namespace(), Stripped(keys), now);
      forall p ensures Lookup(after, p) ==
          if p in t && t[p].expires.Some? && t[p].expires.value <= now && (exists i :: 0 <= i < |keys| && RowOf(keys[i]) == p)
          then None else Lookup(t, p) {
        if p.0 == Namespace() && p.1 in Stripped(keys) {
          var i :| 0 <= i < |keys| && Stripped(keys)[i] == p.1;
          assert RowOf(keys[i]) == p;
        } else if i :| 0 <= i < |keys| && RowOf(keys[i]) == p {
          assert Stripped(keys)[i] == p.1;
        }
      }
    }

    lemma WithoutAre(t: Table<V>, keys: seq<string>)
      ensures forall p :: Lookup(Without(t, Namespace(), Stripped(keys)), p) ==
                if exists i :: 0 <= i < |keys| && RowOf(keys[i]) == p then None else Lookup(t, p)
    {
      RowsAre();
      forall p ensures (exists i :: 0 <= i < |keys| && RowOf(keys[i]) == p) <==> p.0 == Namespace() && p.1 in Stripped(keys) {
        if p.0 == Namespace() && p.1 in Stripped(keys) {
          var i :| 0 <= i < |keys| && Stripped(keys)[i] == p.1;
          assert RowOf(keys[i]) == p;
        } else if i :| 0 <= i < |keys| && RowOf(keys[i]) == p {
          assert Stripped(keys)[i] == p.1;
        }
      }
    }

    function Stripped(keys: seq<string>): (r: seq<string>)
      ensures |r| == |keys| && forall i :: 0 <= i < |r| ==> r[i] == RemoveKeyPrefix(keys[i])
    {
      seq(|keys|, i requires 0 <= i < |keys| => RemoveKeyPrefix(keys[i]))
    }

    function StrippedEntries(entries: seq<Entry<V>>): (r: seq<Entry<V>>)
      ensures |r| == |entries|
      ensures forall i :: 0 <= i < |r| ==> r[i] == entries[i].(key := RemoveKeyPrefix(entries[i].key))
    {
      seq(|entries|, i requires 0 <= i < |entries| => entries[i].(key := RemoveKeyPrefix(entries[i].key)))
    }

    // ----- The single forms -----

    method Get(key: string, now: int) returns (value: Option<V>)
      modifies db
      ensures (db.table, [value]) == GetEach(old(db.table), Namespace(), [RemoveKeyPrefix(key)], now)
      ensures ReadsAs(old(db.table), key, now, value) && ReadLeaves(old(db.table), db.table, [key], now)
    {
      assert Stripped([key]) == [RemoveKeyPrefix(key)] && [key][0] == key;
      ReadsAre(db.table, [key], now);
      var strippedKey, ns := RemoveKeyPrefix(key), Namespace();
      GetEachIsPointwise(db.table, ns, [strippedKey], now);
      var rows := db.SelectIn([strippedKey], ns);
      if |rows| == 0 {
        assert db.table == Reaped(old(db.table), ns, [strippedKey], now);
        value := None;
      } else if Expired(rows[0].1, now) {
        var _ := db.DeleteIn([strippedKey], ns);
        assert db.table == Reaped(old(db.table), ns, [strippedKey], now);
        value := None;
      } else {
        assert db.table == Reaped(old(db.table), ns, [strippedKey], now);
        value := rows[0].1.value;
      }
      assert [value] == GetEach(old(db.table), ns, [strippedKey], now).1;
    }

    method Set(e: Entry<V>, accepted: bool) returns (ok: bool)
      modifies db
      ensures ok == accepted
      ensures db.table == SetEach(old(db.table), Namespace(), if ok then StrippedEntries([e]) else [])
    {
      db.Upsert([e.(key := RemoveKeyPrefix(e.key))], Namespace(), accepted);
      assert StrippedEntries([e]) == [e.(key := RemoveKeyPrefix(e.key))];
      ok := accepted;
    }

    method Delete(key: string) returns (deleted: bool)
      modifies db
      ensures (db.table, [deleted]) == DeleteEach(old(db.table), Namespace(), [RemoveKeyPrefix(key)])
    {
      DeleteEachIsPointwise(db.table, Namespace(), [RemoveKeyPrefix(key)]);
      var rows := db.DeleteIn([RemoveKeyPrefix(key)], Namespace());
      deleted := |rows| > 0;
      assert deleted ==> rows[0] in rows;
      assert [deleted] == DeleteEach(old(db.table), Namespace(), [RemoveKeyPrefix(key)]).1;
    }

    // ----- The many forms -----

    /** One batch of a read: a `SELECT`, and a `DELETE` when it met expired rows. */
    method ReadBatch(batch: seq<string>, now: int, validMap: map<string, Option<V>>) returns (r: map<string, Option<V>>)
      requires |batch| + 1 <= MAX_PARAMETERS
      modifies db
      ensures db.table == Reaped(old(db.table), Namespace(), batch, now)
      ensures forall k :: k in r <==> k in validMap || (k in batch && Live(old(db.table), Namespace(), k, now))
      ensures forall k :: k in r ==>
                r[k] == if k in batch && Live(old(db.table), Namespace(), k, now)
                        then old(db.table)[(Namespace(), k)].value else validMap[k]
    {
      var ns := Namespace();
      ghost var before := db.table;
      var rows := db.SelectIn(batch, ns);
      var expiredKeys: seq<string> := [];
      r := validMap;
      for i := 0 to |rows|
        invariant db.table == before && |expiredKeys| <= i
        invariant forall k :: k in expiredKeys ==> k in batch && (ns, k) in before && Expired(before[(ns, k)], now)
        invariant forall j :: 0 <= j < i && Expired(rows[j].1, now) ==> rows[j].0 in expiredKeys
        invariant forall j :: 0 <= j < i && !Expired(rows[j].1, now) ==> rows[j].0 in r
        invariant forall k :: k in validMap ==> k in r
        invariant forall k :: k in r ==> k in validMap || (k in batch && Live(before, ns, k, now))
        invariant forall k :: k in r ==> (k in batch && Live(before, ns, k, now) && r[k] == before[(ns, k)].value)
                                         || (k in validMap && r[k] == validMap[k])
        invariant forall j :: 0 <= j < i && !Expired(rows[j].1, now) ==> r[rows[j].0] == rows[j].1.value
      {
        if Expired(rows[i].1, now) {
          expiredKeys := expiredKeys + [rows[i].0];
        } else {
          r := r[rows[i].0 := rows[i].1.value];
        }
      }
      assert forall k :: k in batch && (ns, k) in before && Expired(before[(ns, k)], now) ==> k in expiredKeys by {
        forall k | k in batch && (ns, k) in before && Expired(before[(ns, k)], now) ensures k in expiredKeys {
          var j :| 0 <= j < |rows| && rows[j] == (k, before[(ns, k)]);
        }
      }
      forall k | k in batch && Live(before, ns, k, now) ensures k in r && r[k] == before[(ns, k)].value {
        var j :| 0 <= j < |rows| && rows[j] == (k, before[(ns, k)]);
      }
      if |expiredKeys| > 0 {
        var _ := db.DeleteIn(expiredKeys, ns);
      }
      assert db.table == Reaped(before, ns, batch, now);
    }

    /** The batch loop `getMany` and `hasMany` share. */
    method ReadBatches(strippedKeys: seq<string>, now: int) returns (validMap: map<string, Option<V>>)
      modifies db
      ensures db.table == Reaped(old(db.table), Namespace(), strippedKeys, now)
      ensures forall k :: k in validMap <==> k in strippedKeys && Live(old(db.table), Namespace(), k, now)
      ensures forall k :: k in validMap ==>
                (Namespace(), k) in old(db.table) && validMap[k] == old(db.table)[(Namespace(), k)].value
    {
      var batchSize := 998;
      ghost var before, ns := db.table, Namespace();
      validMap := map[];
      var i := 0;
      while i < |strippedKeys|
        invariant i >= 0
        invariant db.table == Reaped(before, ns, strippedKeys[..Min(i, |strippedKeys|)], now)
        invariant forall k :: k in validMap <==> k in strippedKeys[..Min(i, |strippedKeys|)] && Live(before, ns, k, now)
        invariant forall k :: k in validMap ==> validMap[k] == before[(ns, k)].value
      {
        var end := Min(i + batchSize, |strippedKeys|);
        var batch := strippedKeys[i..end];
        ghost var earlier := db.table;
        validMap := ReadBatch(batch, now, validMap);
        assert strippedKeys[..end] == strippedKeys[..i] + batch;
        assert db.table == Reaped(before, ns, strippedKeys[..end], now);
        i := i + batchSize;
      }
      assert strippedKeys[..|strippedKeys|] == strippedKeys;
    }

    function ValuesOf(validMap: map<string, Option<V>>, keys: seq<string>): (r: seq<Option<V>>)
      ensures |r| == |keys|
      ensures forall i :: 0 <= i < |keys| ==> r[i] == if keys[i] in validMap then validMap[keys[i]] else None
    {
      seq(|keys|, i requires 0 <= i < |keys| => if keys[i] in validMap then validMap[keys[i]] else None)
    }

    function Present<T>(m: map<string, T>, keys: seq<string>): (r: seq<bool>)
      ensures |r| == |keys| && forall i :: 0 <= i < |keys| ==> (r[i] <==> keys[i] in m)
    {
      seq(|keys|, i requires 0 <= i < |keys| => keys[i] in m)
    }

    function In(s: set<string>, keys: seq<string>): (r: seq<bool>)
      ensures |r| == |keys| && forall i :: 0 <= i < |keys| ==> (r[i] <==> keys[i] in s)
    {
      seq(|keys|, i requires 0 <= i < |keys| => keys[i] in s)
    }

    /** The same values and the same table as reading the keys one by one. */
    method GetMany(keys: seq<string>, now: int) returns (values: seq<Option<V>>)
      modifies db
      ensures (db.table, values) == GetEach(old(db.table), Namespace(), Stripped(keys), now)
      ensures |values| == |keys| && ReadLeaves(old(db.table), db.table, keys, now)
      ensures forall i :: 0 <= i < |keys| ==> ReadsAs(old(db.table), keys[i], now, values[i])
    {
      ReadsAre(db.table, keys, now);
      hide ReadsAs, ReadLeaves;
      var strippedKeys := Stripped(keys);
      GetEachIsPointwise(db.table, Namespace(), strippedKeys, now);
      var validMap := ReadBatches(strippedKeys, now);
      values := ValuesOf(validMap, strippedKeys);
      assert values == GetEach(old(db.table), Namespace(), strippedKeys, now).1;
    }

    /** A key is present exactly when its row, before the call, was live; a `NULL` value counts as present. */
    method HasMany(keys: seq<string>, now: int) returns (results: seq<bool>)
      modifies db
      ensures db.table == Reaped(old(db.table), Namespace(), Stripped(keys), now)
      ensures |results| == |keys|
      ensures forall i :: 0 <= i < |keys| ==> (results[i] <==> Live(old(db.table), Namespace(), RemoveKeyPrefix(keys[i]), now))
      ensures ReadLeaves(old(db.table), db.table, keys, now)
      ensures forall i :: 0 <= i < |keys| ==>
                var p := RowOf(keys[i]);
                results[i] <==> p in old(db.table) && (old(db.table)[p].expires == None || now < old(db.table)[p].expires.value)
    {
      ReadsAre(db.table, keys, now);
      RowsAre();
      hide ReadLeaves, RowOf;
      var strippedKeys := Stripped(keys);
      var validKeys := ReadBatches(strippedKeys, now);
      results := Present(validKeys, strippedKeys);
    }

    /** All keys are gone, each is reported by whether it was there, and `ceil(n / 998)` statements are sent. */
    method DeleteMany(keys: seq<string>) returns (results: seq<bool>)
      modifies db
      ensures db.table == Without(old(db.table), Namespace(), Stripped(keys))
      ensures |results| == |keys|
      ensures forall i :: 0 <= i < |keys| ==> (results[i] <==> RowOf(keys[i]) in old(db.table))
      ensures forall p :: Lookup(db.table, p) ==
                if exists i :: 0 <= i < |keys| && RowOf(keys[i]) == p then None else Lookup(old(db.table), p)
      ensures db.statements == old(db.statements) + Batches(|keys|, 998)
    {
      RowsAre();
      WithoutAre(db.table, keys);
      hide RowOf;
      hide Without, Batches;
      var strippedKeys := Stripped(keys);
      var ns := Namespace();
      var batchSize := 998;
      NothingWithout(db.table, ns, strippedKeys);
      var deletedKeys: set<string> := {};
      ghost var before, n := db.table, 0;
      var i := 0;
      while i < |strippedKeys|
        invariant i == 998 * n && (n > 0 ==> i - 998 < |strippedKeys|)
        invariant db.statements == old(db.statements) + n
        invariant db.table == Without(before, ns, strippedKeys[..Min(i, |strippedKeys|)])
        invariant forall k :: k in deletedKeys <==> k in strippedKeys[..Min(i, |strippedKeys|)] && (ns, k) in before
      {
        var end := Min(i + batchSize, |strippedKeys|);
        var rows := DeleteBatch(strippedKeys, i, end, before);
        deletedKeys := deletedKeys + (set k | k in rows);
        i, n := i + batchSize, n + 1;
      }
      WithoutMore(before, ns, strippedKeys, |strippedKeys|, |strippedKeys|);
      BatchesOf998(|strippedKeys|, n);
      results := In(deletedKeys, strippedKeys);
    }

    /** One batch of a deletion; the rows are those its keys still had. */
    method DeleteBatch(keys: seq<string>, i: nat, end: nat, ghost before: Table<V>) returns (rows: seq<string>)
      requires i <= end <= |keys| && end - i <= 998 && db.table == Without(before, Namespace(), keys[..i])
      modifies db
      ensures db.table == Without(before, Namespace(), keys[..end]) && db.statements == old(db.statements) + 1
      ensures forall k :: k in keys[..end] && (Namespace(), k) in before <==>
                          k in rows || (k in keys[..i] && (Namespace(), k) in before)
    {
      hide Without;
      WithoutMore(before, Namespace(), keys, i, end);
      WithoutHas(before, Namespace(), keys[..i]);
      rows := db.DeleteIn(keys[i..end], Namespace());
    }

    /** One batch of a write: its entries are stored and flagged, or, when the statement fails, neither. */
    method SetBatch(batch: seq<Entry<V>>, i: nat, accepted: bool, results: array<bool>)
      requires |batch| <= 249 && i + |batch| <= results.Length
      requires forall j :: i <= j < results.Length ==> !results[j]
      modifies db, results
      ensures db.statements == old(db.statements) + 1
      ensures db.table == SetEach(old(db.table), Namespace(), if accepted then StrippedEntries(batch) else [])
      ensures results[..i] == old(results[..i])
      ensures forall j :: i <= j < results.Length ==> (results[j] <==> accepted && j < i + |batch|)
    {
      db.Upsert(StrippedEntries(batch), Namespace(), accepted);
      if accepted {
        for j := i to i + |batch|
          invariant db.statements == old(db.statements) + 1
          invariant db.table == SetEach(old(db.table), Namespace(), StrippedEntries(batch))
          invariant results[..i] == old(results[..i])
          invariant forall h :: i <= h < results.Length ==> (results[h] <==> h < j)
        {
          results[j] := true;
        }
      }
    }

    /** The entries of the accepted batches are stored as single writes in order would store them, and
        exactly those are reported. */
    method SetMany(entries: seq<Entry<V>>, accepts: nat -> bool) returns (flags: seq<bool>)
      modifies db
      ensures |flags| == |entries| && forall i :: 0 <= i < |flags| ==> flags[i] == accepts(i / 249)
      ensures db.table == SetEach(old(db.table), Namespace(), Chosen(StrippedEntries(entries), flags))
      ensures db.statements == old(db.statements) + Batches(|entries|, 249)
      ensures StoredAsGiven(old(db.table), db.table, entries, flags)
    {
      hide SetEach, Chosen, Batches, StoredAsGiven;
      ghost var before := db.table;
      flags := StoreAll(entries, accepts);
      StoredAre(before, entries, flags);
    }

    /** The last reported entry of a row is what the row holds, value and deadline; other rows are as before. */
    ghost predicate StoredAsGiven(before: Table<V>, after: Table<V>, entries: seq<Entry<V>>, flags: seq<bool>)
      requires |flags| == |entries|
    {
      && (forall i :: 0 <= i < |entries| && flags[i]
                      && (forall j :: i < j < |entries| && flags[j] ==> RowOf(entries[j].key) != RowOf(entries[i].key)) ==>
            Lookup(after, RowOf(entries[i].key)) == Some(Row(entries[i].value, entries[i].expires)))
      && (forall p :: (forall i :: 0 <= i < |entries| && flags[i] ==> RowOf(entries[i].key) != p) ==>
            Lookup(after, p) == Lookup(before, p))
    }

    lemma StoredAre(t: Table<V>, entries: seq<Entry<V>>, flags: seq<bool>)
      requires |flags| == |entries|
      ensures StoredAsGiven(t, SetEach(t, Namespace(), Chosen(StrippedEntries(entries), flags)), entries, flags)
    {
      hide SetEach, Chosen, RowOf;
      RowsAre();
      var stripped := StrippedEntries(entries);
      forall i | 0 <= i < |entries| && flags[i]
                 && (forall j :: i < j < |entries| && flags[j] ==> RowOf(entries[j].key) != RowOf(entries[i].key))
        ensures Lookup(SetEach(t, Namespace(), Chosen(stripped, flags)), RowOf(entries[i].key))
             == Some(Row(entries[i].value, entries[i].expires))
      {
        LastStored(t, Namespace(), stripped, flags, i);
      }
      forall p | forall i :: 0 <= i < |entries| && flags[i] ==> RowOf(entries[i].key) != p
        ensures Lookup(SetEach(t, Namespace(), Chosen(stripped, flags)), p) == Lookup(t, p)
      {
        UnnamedStays(t, Namespace(), stripped, flags, p);
      }
    }

    method StoreOne(key: string, value: V, expires: Option<int>)
      modifies db
      ensures Lookup(db.table, RowOf(key)) == Some(Row(Some(value), expires))
    {
      hide SetEach, Chosen, RowOf;
      var entries := [Entry(key, Some(value), expires)];
      var flags := SetMany(entries, _ => true);
      assert flags[0];
      assert entries[0].key == key;
    }

    /** What was written is read back until its deadline, by its key with or without the namespace. */
    method WriteThenRead(key: string, same: string, value: V, expires: Option<int>, now: int)
      returns (found: Option<V>, many: seq<Option<V>>, present: seq<bool>)
      requires RowOf(key) == RowOf(same)
      modifies db
      ensures found == (if expires == None || now < expires.value then Some(value) else None)
      ensures many == [found] && present == [found.Some?]
    {
      hide SetEach, Chosen, RowOf, GetEach, Reaped;
      StoreOne(key, value, expires);
      found := Get(same, now);
      ghost var t := db.table;
      assert RowOf([same][0]) == RowOf(same);
      assert Lookup(t, RowOf(same)) == if found.Some? then Some(Row(Some(value), expires)) else None;
      many := GetMany([same], now);
      present := HasMany([same], now);
    }

    method StoreAll(entries: seq<Entry<V>>, accepts: nat -> bool) returns (flags: seq<bool>)
      modifies db
      ensures |flags| == |entries| && forall i :: 0 <= i < |flags| ==> flags[i] == accepts(i / 249)
      ensures db.table == SetEach(old(db.table), Namespace(), Chosen(StrippedEntries(entries), flags))
      ensures db.statements == old(db.statements) + Batches(|entries|, 249)
    {
      hide SetEach, Chosen, Batches;
      var results := new bool[|entries|](_ => false);
      NothingStored(db.table, Namespace(), StrippedEntries(entries), results[..]);
      ghost var before, ns, stripped := db.table, Namespace(), StrippedEntries(entries);
      var i, n, done := 0, 0, 0;
      while i < |entries|
        invariant i == 249 * n && (n > 0 ==> i - 249 < |entries|) && done == Min(i, |entries|)
        invariant db.statements == old(db.statements) + n
        invariant forall j :: 0 <= j < done ==> results[..done][j] == accepts(j / 249)
        invariant forall j :: done <= j < |entries| ==> !results[j]
        invariant db.table == SetEach(before, ns, Chosen(stripped[..done], results[..done]))
      {
        var end := Min(i + 249, |entries|);
        ghost var flagsBefore := results[..i];
        SetBatch(entries[i..end], i, accepts(n), results);
        BatchIndex(i, end, n);
        assert StrippedEntries(entries[i..end]) == stripped[i..end];
        BatchStored(before, ns, stripped[..end], flagsBefore, results[..end], accepts(n));
        assert stripped[..end][..i] == stripped[..i] && stripped[..end][i..] == stripped[i..end];
        i, n, done := i + 249, n + 1, end;
      }
      flags := results[..];
      BatchesOf249(|entries|, n);
      assert stripped[..|entries|] == stripped && results[..|entries|] == flags;
    }

    lemma NothingStored(t: Table<V>, ns: string, entries: seq<Entry<V>>, flags: seq<bool>)
      requires |flags| == |entries|
      ensures SetEach(t, ns, Chosen(entries[..0], flags[..0])) == t
    {}

    /** Storing a batch whose flags are all equal continues the fold. */
    lemma BatchStored(t: Table<V>, ns: string, entries: seq<Entry<V>>, before: seq<bool>, flags: seq<bool>, flag: bool)
      requires |before| <= |entries| == |flags| && before == flags[..|before|]
      requires forall j :: |before| <= j < |flags| ==> flags[j] == flag
      ensures SetEach(t, ns, Chosen(entries, flags))
           == SetEach(SetEach(t, ns, Chosen(entries[..|before|], before)), ns, if flag then entries[|before|..] else [])
    {
      ChosenBatch(entries, flags, |before|, flag);
      SetEachAppends(t, ns, Chosen(entries[..|before|], before), if flag then entries[|before|..] else []);
    }

    lemma BatchIndex(i: nat, end: nat, n: nat)
      requires i == 249 * n && end <= i + 249
      ensures forall j :: i <= j < end ==> j / 249 == n
    {}
  }
}

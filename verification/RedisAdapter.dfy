/**
Batched operations of the Redis adapter, on one connection or on a cluster.  A cluster rejects a
transaction that touches two hash slots, so the adapter sends one transaction per slot; the order in
which they complete is left open by taking the slots in any order.
*/
module RedisAdapter {
  import opened Wrappers
  import opened RedisCommands
  import opened RedisConnection

  datatype Entry<V> = Entry(key: string, value: V, expires: Option<int>)

  class KeyvRedis<V> {
    const server: RedisServer<V>
    const namespace: string
    const separator: string
    /** Whether the server takes absolute deadlines. */
    const usePxat: bool

    constructor (server: RedisServer<V>, namespace: string, separator: string, usePxat: bool)
      ensures this.server == server && this.namespace == namespace && this.separator == separator && this.usePxat == usePxat
    {
      this.usePxat := usePxat;
      this.server := server;
      this.namespace := namespace;
      this.separator := separator;
    }

    function CreateKeyPrefix(key: string): string {
      if namespace != "" then namespace + separator + key else key
    }

    /** The deadline a server keeps for `PXAT`, or for a relative `PX` of at least a millisecond. */
    function ExpiryOptions(expires: int, now: int): int {
      if usePxat then expires else now + (if expires - now > 1 then expires - now else 1)
    }

    function SetCommand(e: Entry<V>, now: int): Command<V> {
      Set(CreateKeyPrefix(e.key), Item(e.value, if e.expires.Some? then Some(ExpiryOptions(e.expires.value, now)) else None))
    }

    /** What `setMany` does on one connection: one transaction with every entry in input order. */
    function SetCommands(entries: seq<Entry<V>>, now: int): (cmds: seq<Command<V>>)
      ensures |cmds| == |entries| && forall i :: 0 <= i < |cmds| ==> cmds[i] == SetCommand(entries[i], now)
    {
      seq(|entries|, i requires 0 <= i < |entries| => SetCommand(entries[i], now))
    }

    /** `results[slotEntries[j].index] = execResults[j] === "OK"`. */
    method ScatterFlags(flags: array<bool>, ghost cmds: seq<Command<V>>, ghost slot: nat,
                        group: seq<(Command<V>, nat)>, replies: seq<Reply<V>>)
      requires group == Share(cmds, server.slotOf, slot) && |replies| == |group| && flags.Length == |cmds|
      requires forall j :: 0 <= j < |group| ==> replies[j] == OK
      modifies flags
      ensures forall i :: 0 <= i < flags.Length && (old(flags[i]) || server.slotOf(cmds[i].key) == slot) ==> flags[i]
    {
      for j := 0 to |group|
        invariant forall i :: 0 <= i < flags.Length && old(flags[i]) ==> flags[i]
        invariant forall h :: 0 <= h < j ==> group[h].1 < flags.Length && flags[group[h].1]
      {
        ShareAt(cmds, server.slotOf, slot, j);
        flags[group[j].1] := replies[j] == OK;
      }
      forall i | 0 <= i < flags.Length && server.slotOf(cmds[i].key) == slot ensures flags[i] {
        InShare(cmds, server.slotOf, i);
      }
    }

    /** One transaction per slot, in any order of the slots. */
    method SetManyCluster(cmds: seq<Command<V>>, flags: array<bool>)
      requires flags.Length == |cmds| && (forall i :: 0 <= i < |cmds| ==> cmds[i].Set?)
      modifies server, flags
      ensures server.data == State(old(server.data), cmds)
      ensures forall i :: 0 <= i < flags.Length ==> flags[i]
    {
      var slotMap := GroupBySlot(cmds, server.slotOf);
      var todo, done := slotMap.Keys, {};
      ghost var before := server.data;
      ExecutedNothing(before, cmds, server.slotOf);
      while todo != {}
        invariant todo + done == slotMap.Keys
        invariant todo !! done
        invariant Executed(before, server.data, cmds, server.slotOf, done)
        invariant forall i :: 0 <= i < flags.Length && server.slotOf(cmds[i].key) in done ==> flags[i]
        decreases todo
      {
        var slot :| slot in todo;
        var group := slotMap[slot];
        OneSlot(cmds, server.slotOf, slot);
        ExecutedOneMore(before, server.data, cmds, server.slotOf, done, slot);
        server.SharesAreSets(cmds, slot, server.data);
        var reply := server.Multi(Commands(group));
        ScatterFlags(flags, cmds, slot, group, reply.value);
        todo, done := todo - {slot}, done + {slot};
      }
      ExecutedAll(before, server.data, cmds, server.slotOf, done);
    }

    /** Every entry is stored as one transaction in input order would store it, and reported as stored: the last
        entry of a key is what is held under the prefixed key, with its deadline or, where the server takes
        relative ones only, at the earliest a millisecond from now; and nothing else changes. */
    method SetMany(entries: seq<Entry<V>>, now: int) returns (results: seq<bool>)
      modifies server
      ensures server.data == State(old(server.data), SetCommands(entries, now))
      ensures |results| == |entries| && forall i :: 0 <= i < |results| ==> results[i]
      ensures forall i :: 0 <= i < |entries| && (forall j :: i < j < |entries| ==> entries[j].key != entries[i].key) ==>
                var k := if namespace == "" then entries[i].key else namespace + separator + entries[i].key;
                Lookup(server.data, k) == Some(Item(entries[i].value, match entries[i].expires
                                                                case None => None
                                                                case Some(d) => Some(if usePxat || d > now then d else now + 1)))
      ensures forall k :: (forall i :: 0 <= i < |entries| ==>
                             k != if namespace == "" then entries[i].key else namespace + separator + entries[i].key) ==>
                Lookup(server.data, k) == Lookup(old(server.data), k)
    {
      hide State, SetCommands;
      ghost var before := server.data;
      results := StoreAll(entries, now);
      StoredAre(before, entries, now, server.data);
    }

    /** What one transaction in input order leaves. */
    method StoreAll(entries: seq<Entry<V>>, now: int) returns (results: seq<bool>)
      modifies server
      ensures server.data == State(old(server.data), SetCommands(entries, now))
      ensures |results| == |entries| && forall i :: 0 <= i < |results| ==> results[i]
    {
      var flags := new bool[|entries|](_ => false);
      var cmds := SetCommands(entries, now);
      if server.clustered {
        SetManyCluster(cmds, flags);
      } else {
        var reply := server.Multi(cmds);
        for i := 0 to |entries|
          invariant server.data == State(old(server.data), cmds)
          invariant forall j :: 0 <= j < i ==> flags[j]
        {
          flags[i] := reply.value[i] == OK;
        }
      }
      assert cmds == SetCommands(entries, now);
      results := flags[..];
    }

    lemma StoredAre(before: Store<V>, entries: seq<Entry<V>>, now: int, after: Store<V>)
      requires after == State(before, SetCommands(entries, now))
      ensures forall i :: 0 <= i < |entries| && (forall j :: i < j < |entries| ==> entries[j].key != entries[i].key) ==>
                var k := if namespace == "" then entries[i].key else namespace + separator + entries[i].key;
                Lookup(after, k) == Some(Item(entries[i].value, match entries[i].expires
                                                                case None => None
                                                                case Some(d) => Some(if usePxat || d > now then d else now + 1)))
      ensures forall k :: (forall i :: 0 <= i < |entries| ==>
                             k != if namespace == "" then entries[i].key else namespace + separator + entries[i].key) ==>
                Lookup(after, k) == Lookup(before, k)
    {
      hide State, CreateKeyPrefix;
      PrefixedKey();
      var cmds := SetCommands(entries, now);
      forall i | 0 <= i < |entries| && (forall j :: i < j < |entries| ==> entries[j].key != entries[i].key)
        ensures Lookup(after, CreateKeyPrefix(entries[i].key)) == Some(SetCommand(entries[i], now).item)
      {
        LastEntryWins(before, entries, now, i);
      }
      forall k | forall i :: 0 <= i < |entries| ==> k != CreateKeyPrefix(entries[i].key)
        ensures Lookup(after, k) == Lookup(before, k)
      {
        StateAt(before, cmds, k);
        Untouched(Lookup(before, k), cmds, k);
      }
    }

    lemma PrefixedKey()
      ensures forall key :: CreateKeyPrefix(key) == if namespace == "" then key else namespace + separator + key
    {}

    lemma KeysDiffer(a: string, b: string)
      requires CreateKeyPrefix(a) == CreateKeyPrefix(b)
      ensures a == b
    {
      if namespace != "" {
        var prefix := namespace + separator;
        assert (prefix + a)[|prefix|..] == a && (prefix + b)[|prefix|..] == b;
      }
    }

    lemma LastEntryWins(before: Store<V>, entries: seq<Entry<V>>, now: int, i: nat)
      requires i < |entries| && forall j :: i < j < |entries| ==> entries[j].key != entries[i].key
      ensures Lookup(State(before, SetCommands(entries, now)), CreateKeyPrefix(entries[i].key))
           == Some(SetCommand(entries[i], now).item)
    {
      var cmds := SetCommands(entries, now);
      forall j | i < j < |entries| ensures cmds[j].key != cmds[i].key {
        if cmds[j].key == cmds[i].key { KeysDiffer(entries[j].key, entries[i].key); }
      }
      StateAt(before, cmds, cmds[i].key);
      LastSetWins(Lookup(before, cmds[i].key), cmds, i);
    }

    method StoreOne(entries: seq<Entry<V>>, now: int, i: nat)
      requires i < |entries| && forall j :: i < j < |entries| ==> entries[j].key != entries[i].key
      modifies server
      ensures CreateKeyPrefix(entries[i].key) in server.data
      ensures server.data[CreateKeyPrefix(entries[i].key)].value == entries[i].value
    {
      hide State;
      var _ := SetMany(entries, now);
      PrefixedKey();
      assert Lookup(server.data, CreateKeyPrefix(entries[i].key)).Some?;
    }

    /** What was written is read back, and then deleted. */
    method WriteThenRead(entries: seq<Entry<V>>, now: int, i: nat)
      returns (values: seq<Option<V>>, present: seq<bool>, deleted: seq<bool>, gone: seq<bool>)
      requires i < |entries| && forall j :: i < j < |entries| ==> entries[j].key != entries[i].key
      modifies server
      ensures values == [Some(entries[i].value)] && present == [true] && deleted == [true] && gone == [false]
    {
      var keys := [entries[i].key];
      StoreOne(entries, now, i);
      values := GetMany(keys);
      present := HasMany(keys);
      deleted := DeleteMany(keys);
      assert Prefixed(keys)[0] in Prefixed(keys);
      gone := HasMany(keys);
      assert Lookup(server.data, CreateKeyPrefix(keys[0])) == None;
    }

    // ----- Reads and deletes -----

    function Prefixed(keys: seq<string>): (r: seq<string>)
      ensures |r| == |keys| && forall i :: 0 <= i < |r| ==> r[i] == CreateKeyPrefix(keys[i])
    {
      seq(|keys|, i requires 0 <= i < |keys| => CreateKeyPrefix(keys[i]))
    }

    method HasManyPrefixed(keys: seq<string>) returns (results: seq<bool>)
      modifies server
      ensures server.data == old(server.data)
      ensures |results| == |keys| && forall i :: 0 <= i < |keys| ==> (results[i] <==> keys[i] in old(server.data))
    {
      var cmds := server.ExistsCommands(keys);
      ghost var before := server.data;
      server.ReadsKeep(before, cmds);
      if server.clustered {
        var resultMap := server.RepliesByKey(cmds);
        server.ReadsByKey(resultMap, before, cmds);
        results := server.Ones(resultMap, keys);
        assert forall i :: 0 <= i < |keys| ==> cmds[i].key == keys[i];
      } else {
        var reply := server.Multi(cmds);
        results := server.AreOnes(reply.value);
        forall i | 0 <= i < |keys| ensures ReplyAt(before, cmds, i) == ReplyOf(cmds[i], Lookup(before, keys[i])) {
          server.ReadReply(before, cmds, i);
        }
      }
    }

    method HasMany(keys: seq<string>) returns (results: seq<bool>)
      modifies server
      ensures server.data == old(server.data)
      ensures |results| == |keys|
      ensures forall i :: 0 <= i < |keys| ==> (results[i] <==> CreateKeyPrefix(keys[i]) in old(server.data))
    {
      results := HasManyPrefixed(Prefixed(keys));
    }

    method MGet(keys: seq<string>) returns (values: seq<Option<V>>)
      modifies server
      ensures server.data == old(server.data)
      ensures |values| == |keys|
      ensures forall i :: 0 <= i < |keys| ==>
                values[i] == if keys[i] in old(server.data) then Some(old(server.data)[keys[i]].value) else None
    {
      var cmds := server.GetCommands(keys);
      ghost var before := server.data;
      server.ReadsKeep(before, cmds);
      var valueMap := server.RepliesByKey(cmds);
      server.ReadsByKey(valueMap, before, cmds);
      assert forall i :: 0 <= i < |keys| ==> cmds[i].key == keys[i];
      values := server.ValuesOf(valueMap, keys);
    }

    method GetMany(keys: seq<string>) returns (values: seq<Option<V>>)
      modifies server
      ensures server.data == old(server.data)
      ensures |values| == |keys|
      ensures forall i :: 0 <= i < |keys| ==>
                values[i] == if CreateKeyPrefix(keys[i]) in old(server.data)
                             then Some(old(server.data)[CreateKeyPrefix(keys[i])].value) else None
    {
      if |keys| == 0 { return []; }
      values := MGet(Prefixed(keys));
    }

    // ----- Deletes -----

    /** All given keys are gone and nothing else is.  A key is reported as deleted exactly when it was
        there and was given once: for a key given twice the second reply overwrites the first. */
    method DeleteMany(keys: seq<string>) returns (results: seq<bool>)
      modifies server
      ensures forall k :: Lookup(server.data, k) == if k in Prefixed(keys) then None else Lookup(old(server.data), k)
      ensures |results| == |keys|
      ensures forall i :: 0 <= i < |keys| ==>
                (results[i] <==> CreateKeyPrefix(keys[i]) in old(server.data) && server.Once(Prefixed(keys), i))
    {
      var prefixedKeys := Prefixed(keys);
      var cmds := server.DelCommands(prefixedKeys);
      ghost var before := server.data;
      var resultMap := server.RepliesByKey(cmds);
      server.DeletesByKey(resultMap, before, prefixedKeys, cmds);
      results := server.Ones(resultMap, prefixedKeys);
    }

    /** `clear` deletes what its scans return through this loop. */
    method ClearWithClusterSupport(keys: seq<string>)
      modifies server
      ensures forall k :: Lookup(server.data, k) == if k in keys then None else Lookup(old(server.data), k)
    {
      if |keys| > 0 {
        var cmds := server.DelCommands(keys);
        ghost var before := server.data;
        var resultMap := server.RepliesByKey(cmds);
        server.DeletesByKey(resultMap, before, keys, cmds);
      }
    }
  }
}

/**
A Redis or Valkey server and the one loop the adapters build on: a batch of one-key commands is sent as
one transaction or, to a cluster, as one transaction per hash slot in any order, and the replies are
collected by key.
*/
module RedisConnection {
  import opened Wrappers
  import opened RedisCommands

  class RedisServer<V> {
    var data: Store<V>
    const clustered: bool
    const slotOf: string -> nat

    constructor (clustered: bool, slotOf: string -> nat)
      ensures data == map[] && this.clustered == clustered && this.slotOf == slotOf
    {
      data := map[];
      this.clustered := clustered;
      this.slotOf := slotOf;
    }

    ghost predicate CrossSlot(cmds: seq<Command<V>>) {
      clustered && exists i, j :: 0 <= i < j < |cmds| && slotOf(cmds[i].key) != slotOf(cmds[j].key)
    }

    /** `MULTI ... EXEC`; `None` is the CROSSSLOT error. */
    method Multi(cmds: seq<Command<V>>) returns (r: Option<seq<Reply<V>>>)
      modifies this
      ensures CrossSlot(cmds) ==> r == None && data == old(data)
      ensures !CrossSlot(cmds) ==> r == Some(Replies(old(data), cmds)) && data == State(old(data), cmds)
    {
      var i := 1;
      while clustered && i < |cmds|
        invariant clustered && |cmds| > 0 ==> 1 <= i <= |cmds|
        invariant clustered && |cmds| > 0 ==> forall j :: 0 <= j < i ==> slotOf(cmds[j].key) == slotOf(cmds[0].key)
      {
        if slotOf(cmds[i].key) != slotOf(cmds[0].key) { return None; }
        i := i + 1;
      }
      r := Some(Replies(data, cmds));
      data := State(data, cmds);
    }

    lemma SharesAreSets(cmds: seq<Command<V>>, slot: nat, s: Store<V>)
      requires forall i :: 0 <= i < |cmds| ==> cmds[i].Set?
      ensures forall j :: 0 <= j < |Share(cmds, slotOf, slot)| ==>
                Replies(s, Commands(Share(cmds, slotOf, slot)))[j] == OK
    {
      forall j | 0 <= j < |Share(cmds, slotOf, slot)|
        ensures Replies(s, Commands(Share(cmds, slotOf, slot)))[j] == OK
      {
        ShareAt(cmds, slotOf, slot, j);
      }
    }

    // ----- Reads and deletes: replies are collected by key -----

    function ExistsCommands(keys: seq<string>): (cmds: seq<Command<V>>)
      ensures |cmds| == |keys| && forall i :: 0 <= i < |cmds| ==> cmds[i] == Exists(keys[i])
    {
      seq(|keys|, i requires 0 <= i < |keys| => Exists(keys[i]))
    }

    function GetCommands(keys: seq<string>): (cmds: seq<Command<V>>)
      ensures |cmds| == |keys| && forall i :: 0 <= i < |cmds| ==> cmds[i] == Get(keys[i])
    {
      seq(|keys|, i requires 0 <= i < |keys| => Get(keys[i]))
    }

    function DelCommands(keys: seq<string>): (cmds: seq<Command<V>>)
      ensures |cmds| == |keys| && forall i :: 0 <= i < |cmds| ==> cmds[i] == Del(keys[i])
    {
      seq(|keys|, i requires 0 <= i < |keys| => Del(keys[i]))
    }

    /** A result map holds, for each key of the commands, the reply to its last command. */
    ghost predicate Collected(resultMap: map<string, Reply<V>>, before: Store<V>, cmds: seq<Command<V>>, done: set<nat>) {
      forall i :: 0 <= i < |cmds| && slotOf(cmds[i].key) in done ==> IsLastReply(resultMap, before, cmds, cmds[i].key)
    }

    /** `for (const [index, result] of results.entries()) resultMap.set(keys[index], result)`. */
    method Collect(resultMap: map<string, Reply<V>>, cmds: seq<Command<V>>, replies: seq<Reply<V>>)
      returns (r: map<string, Reply<V>>)
      requires |replies| == |cmds|
      ensures forall k :: LastFor(cmds, k).Some? ==>
                LastFor(cmds, k).value < |cmds| && k in r && r[k] == replies[LastFor(cmds, k).value]
      ensures forall k :: LastFor(cmds, k).None? && k in resultMap ==> k in r && r[k] == resultMap[k]
    {
      r := resultMap;
      for i := 0 to |cmds|
        invariant forall k :: LastFor(cmds[..i], k).Some? ==>
                    LastFor(cmds[..i], k).value < i && k in r && r[k] == replies[LastFor(cmds[..i], k).value]
        invariant forall k :: LastFor(cmds[..i], k).None? && k in resultMap ==> k in r && r[k] == resultMap[k]
      {
        assert cmds[..i + 1][..i] == cmds[..i];
        r := r[cmds[i].key := replies[i]];
      }
      assert cmds[..|cmds|] == cmds;
    }

    /** The last command for a key in its slot's share is the last one in the input. */
    lemma {:induction false} LastInShare(cmds: seq<Command<V>>, slot: nat, k: string)
      requires slotOf(k) == slot
      ensures var share := Share(cmds, slotOf, slot);
              match LastFor(Commands(share), k)
              case None => LastFor(cmds, k) == None
              case Some(j) => j < |share| && LastFor(cmds, k) == Some(share[j].1)
    {
      if cmds != [] {
        var front := cmds[..|cmds| - 1];
        LastInShare(front, slot, k);
        var share := Share(cmds, slotOf, slot);
        if slotOf(cmds[|cmds| - 1].key) == slot {
          assert Commands(share)[..|share| - 1] == Commands(Share(front, slotOf, slot));
        }
      }
    }

    lemma CollectedOneMore(resultMap: map<string, Reply<V>>, r: map<string, Reply<V>>, before: Store<V>, now: Store<V>,
                           cmds: seq<Command<V>>, done: set<nat>, slot: nat)
      requires Collected(resultMap, before, cmds, done) && Executed(before, now, cmds, slotOf, done) && slot !in done
      requires var group := Commands(Share(cmds, slotOf, slot));
               && (forall k :: LastFor(group, k).Some? ==>
                     LastFor(group, k).value < |group| && k in r && r[k] == ReplyAt(now, group, LastFor(group, k).value))
               && (forall k :: LastFor(group, k).None? && k in resultMap ==> k in r && r[k] == resultMap[k])
      ensures Collected(r, before, cmds, done + {slot})
    {
      var share := Share(cmds, slotOf, slot);
      forall i | 0 <= i < |cmds| && slotOf(cmds[i].key) in done + {slot}
        ensures IsLastReply(r, before, cmds, cmds[i].key)
      {
        var k := cmds[i].key;
        LastForIsLast(cmds, k);
        if slotOf(k) == slot {
          LastInShare(cmds, slot, k);
          ShareReply(before, now, cmds, slotOf, slot, LastFor(Commands(share), k).value);
        } else {
          NotInShare(cmds, slot, k);
        }
      }
    }

    lemma NotInShare(cmds: seq<Command<V>>, slot: nat, k: string)
      requires slotOf(k) != slot
      ensures LastFor(Commands(Share(cmds, slotOf, slot)), k) == None
    {
      var share := Share(cmds, slotOf, slot);
      LastForIsLast(Commands(share), k);
      if LastFor(Commands(share), k).Some? { ShareAt(cmds, slotOf, slot, LastFor(Commands(share), k).value); }
    }

    ghost predicate ByKey(resultMap: map<string, Reply<V>>, before: Store<V>, cmds: seq<Command<V>>) {
      forall i {:trigger IsLastReply(resultMap, before, cmds, cmds[i].key)} ::
        0 <= i < |cmds| ==> IsLastReply(resultMap, before, cmds, cmds[i].key)
    }

    ghost predicate IsLastReply(resultMap: map<string, Reply<V>>, before: Store<V>, cmds: seq<Command<V>>, k: string) {
      var last := LastFor(cmds, k);
      last.Some? && last.value < |cmds| && k in resultMap && resultMap[k] == ReplyAt(before, cmds, last.value)
    }

    /** The loop `hasMany`, `deleteMany` and `mget` share: with a cluster one transaction per slot, in
        any order, otherwise one transaction, whose replies are stored by key. */
    method RepliesByKey(cmds: seq<Command<V>>) returns (resultMap: map<string, Reply<V>>)
      modifies this
      ensures data == State(old(data), cmds)
      ensures ByKey(resultMap, old(data), cmds)
    {
      ghost var before := data;
      resultMap := map[];
      if clustered {
        var slotMap := GroupBySlot(cmds, slotOf);
        var todo, done := slotMap.Keys, {};
        ExecutedNothing(before, cmds, slotOf);
        while todo != {}
          invariant todo + done == slotMap.Keys
          invariant todo !! done
          invariant Executed(before, data, cmds, slotOf, done)
          invariant Collected(resultMap, before, cmds, done)
          decreases todo
        {
          var slot :| slot in todo;
          var slotCommands := Commands(slotMap[slot]);
          OneSlot(cmds, slotOf, slot);
          ExecutedOneMore(before, data, cmds, slotOf, done, slot);
          ghost var now, earlier := data, resultMap;
          var reply := Multi(slotCommands);
          resultMap := Collect(resultMap, slotCommands, reply.value);
          CollectedOneMore(earlier, resultMap, before, now, cmds, done, slot);
          todo, done := todo - {slot}, done + {slot};
        }
        ExecutedAll(before, data, cmds, slotOf, done);
      } else {
        var reply := Multi(cmds);
        resultMap := Collect(resultMap, cmds, reply.value);
        forall i | 0 <= i < |cmds| ensures LastFor(cmds, cmds[i].key).Some? { LastForIsLast(cmds, cmds[i].key); }
      }
    }

    lemma {:induction false} ReadsKeep(s: Store<V>, cmds: seq<Command<V>>)
      requires forall i :: 0 <= i < |cmds| ==> cmds[i].Exists? || cmds[i].Get?
      ensures State(s, cmds) == s
    {
      if cmds != [] { ReadsKeep(s, cmds[..|cmds| - 1]); }
    }

    /** A read in a transaction of reads sees the store as it was. */
    lemma ReadReply(s: Store<V>, cmds: seq<Command<V>>, i: nat)
      requires i < |cmds| && forall j :: 0 <= j < |cmds| ==> cmds[j].Exists? || cmds[j].Get?
      ensures ReplyAt(s, cmds, i) == ReplyOf(cmds[i], Lookup(s, cmds[i].key))
    {
      ReadsKeep(s, cmds[..i]);
    }

    /** Each key of a batch of reads maps to the reply of a single read on the store as it was. */
    lemma ReadsByKey(resultMap: map<string, Reply<V>>, s: Store<V>, cmds: seq<Command<V>>)
      requires ByKey(resultMap, s, cmds)
      requires forall j :: 0 <= j < |cmds| ==> cmds[j].Exists? || cmds[j].Get?
      requires forall i, j :: 0 <= i < j < |cmds| && cmds[i].key == cmds[j].key ==> cmds[i] == cmds[j]
      ensures forall i :: 0 <= i < |cmds| ==>
                cmds[i].key in resultMap && resultMap[cmds[i].key] == ReplyOf(cmds[i], Lookup(s, cmds[i].key))
    {
      forall i | 0 <= i < |cmds|
        ensures cmds[i].key in resultMap && resultMap[cmds[i].key] == ReplyOf(cmds[i], Lookup(s, cmds[i].key))
      {
        assert IsLastReply(resultMap, s, cmds, cmds[i].key);
        LastForIsLast(cmds, cmds[i].key);
        ReadReply(s, cmds, LastFor(cmds, cmds[i].key).value);
      }
    }

    /** `keys.map((key) => resultMap.get(key) === 1)`. */
    function Ones(resultMap: map<string, Reply<V>>, keys: seq<string>): (r: seq<bool>)
      ensures |r| == |keys|
      ensures forall i :: 0 <= i < |keys| ==> (r[i] <==> keys[i] in resultMap && resultMap[keys[i]] == Int(1))
    {
      seq(|keys|, i requires 0 <= i < |keys| => keys[i] in resultMap && resultMap[keys[i]] == Int(1))
    }

    /** `results.map((result) => result === 1)`. */
    function AreOnes(replies: seq<Reply<V>>): (r: seq<bool>)
      ensures |r| == |replies| && forall i :: 0 <= i < |r| ==> (r[i] <==> replies[i] == Int(1))
    {
      seq(|replies|, i requires 0 <= i < |replies| => replies[i] == Int(1))
    }

    /** `keys.map((key) => valueMap.get(key))`. */
    function ValuesOf(valueMap: map<string, Reply<V>>, keys: seq<string>): (r: seq<Option<V>>)
      ensures |r| == |keys|
      ensures forall i :: 0 <= i < |keys| && keys[i] in valueMap && valueMap[keys[i]].Bulk? ==> r[i] == valueMap[keys[i]].value
    {
      seq(|keys|, i requires 0 <= i < |keys| =>
        if keys[i] in valueMap && valueMap[keys[i]].Bulk? then valueMap[keys[i]].value else None)
    }

    lemma {:induction false} DelState(s: Store<V>, cmds: seq<Command<V>>, k: string)
      requires forall i :: 0 <= i < |cmds| ==> cmds[i].Del?
      ensures Lookup(State(s, cmds), k) == if exists i :: 0 <= i < |cmds| && cmds[i].key == k then None else Lookup(s, k)
    {
      if cmds != [] {
        var front := cmds[..|cmds| - 1];
        DelState(s, front, k);
        if i :| 0 <= i < |front| && front[i].key == k { assert cmds[i].key == k; }
      }
    }

    /** The key occurs at position `i` only. */
    ghost predicate Once(keys: seq<string>, i: nat)
      requires i < |keys|
    {
      forall j :: 0 <= j < |keys| && j != i ==> keys[j] != keys[i]
    }

    lemma DeletesByKey(resultMap: map<string, Reply<V>>, s: Store<V>, keys: seq<string>, cmds: seq<Command<V>>)
      requires |cmds| == |keys| && forall j :: 0 <= j < |cmds| ==> cmds[j] == Del(keys[j])
      requires ByKey(resultMap, s, cmds)
      ensures forall k :: Lookup(State(s, cmds), k) == if k in keys then None else Lookup(s, k)
      ensures forall i :: 0 <= i < |keys| ==>
                keys[i] in resultMap && (resultMap[keys[i]] == Int(1) <==> (keys[i] in s && Once(keys, i)))
    {
      forall k ensures Lookup(State(s, cmds), k) == if k in keys then None else Lookup(s, k) {
        DelState(s, cmds, k);
        if k in keys {
          var i :| 0 <= i < |keys| && keys[i] == k;
          assert cmds[i].key == k;
        }
      }
      forall i | 0 <= i < |keys|
        ensures keys[i] in resultMap && (resultMap[keys[i]] == Int(1) <==> (keys[i] in s && Once(keys, i)))
      {
        assert IsLastReply(resultMap, s, cmds, cmds[i].key);
        DeleteReply(s, keys, cmds, i);
      }
    }

    lemma DeleteReply(s: Store<V>, keys: seq<string>, cmds: seq<Command<V>>, i: nat)
      requires |cmds| == |keys| && i < |keys| && forall j :: 0 <= j < |cmds| ==> cmds[j] == Del(keys[j])
      ensures LastFor(cmds, keys[i]).Some? && LastFor(cmds, keys[i]).value < |cmds|
      ensures (ReplyAt(s, cmds, LastFor(cmds, keys[i]).value) == Int(1)) <==> (keys[i] in s && Once(keys, i))
    {
      LastForIsLast(cmds, keys[i]);
      var last := LastFor(cmds, keys[i]).value;
      DelState(s, cmds[..last], keys[i]);
      if j :| 0 <= j < last && cmds[..last][j].key == keys[i] {
        assert keys[j] == keys[last] == keys[i];
      } else {
        forall j | 0 <= j < last ensures keys[j] != keys[i] { assert cmds[..last][j].key == keys[j]; }
      }
    }
  }
}

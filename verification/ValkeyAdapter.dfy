/**
Batched operations of the Valkey adapter.  `setMany` skips entries whose value is undefined, sends one
transaction per hash slot, and with `useSets` puts an `SADD` on the namespace's tracking set behind every
`SET`, so that the replies to the `SET`s are the even ones.
*/
module ValkeyAdapter {
  import opened Wrappers
  import opened RedisCommands
  import opened RedisConnection

  /** A `None` value is `undefined`. */
  datatype Entry<V> = Entry(key: string, value: Option<V>, expires: Option<int>)

  datatype TrxCommand<V> = Write(c: Command<V>) | SAdd(setKey: string, member: string)

  datatype TrxReply = Ok | Added

  function KeyOf<V>(t: TrxCommand<V>): string { if t.Write? then t.c.key else t.setKey }

  function Writes<V>(trx: seq<TrxCommand<V>>): seq<Command<V>> {
    if trx == [] then []
    else
      var front, t := Writes(trx[..|trx| - 1]), trx[|trx| - 1];
      if t.Write? then front + [t.c] else front
  }

  function Members<V>(trx: seq<TrxCommand<V>>): set<(string, string)> {
    if trx == [] then {}
    else
      var front, t := Members(trx[..|trx| - 1]), trx[|trx| - 1];
      if t.SAdd? then front + {(t.setKey, t.member)} else front
  }

  /** Where the reply to the j-th write of a group is: at `j * step`. */
  function ReplyIndex(useSets: bool, j: nat): nat { if useSets then j * 2 else j * 1 }

  /** A group's transaction. */
  function Trx<V>(cmds: seq<Command<V>>, useSets: bool, setKey: string): seq<TrxCommand<V>> {
    if cmds == [] then []
    else
      var written := Trx(cmds[..|cmds| - 1], useSets, setKey) + [Write(cmds[|cmds| - 1])];
      if useSets then written + [SAdd(setKey, cmds[|cmds| - 1].key)] else written
  }

  /** The j-th write stands where its reply is looked for. */
  lemma {:induction false} TrxAt<V>(cmds: seq<Command<V>>, useSets: bool, setKey: string, j: nat)
    requires j < |cmds|
    ensures |Trx(cmds, useSets, setKey)| == ReplyIndex(useSets, |cmds|)
    ensures Trx(cmds, useSets, setKey)[ReplyIndex(useSets, j)] == Write(cmds[j])
  {
    var front := cmds[..|cmds| - 1];
    if front != [] { TrxAt(front, useSets, setKey, if j < |front| then j else 0); }
  }

  /** The writes of a group's transaction are the group's commands. */
  lemma {:induction false} TrxWrites<V>(cmds: seq<Command<V>>, useSets: bool, setKey: string)
    ensures Writes(Trx(cmds, useSets, setKey)) == cmds
  {
    if cmds != [] {
      var front, c := cmds[..|cmds| - 1], cmds[|cmds| - 1];
      TrxWrites(front, useSets, setKey);
      var before := Trx(front, useSets, setKey);
      WritesAppend(before, Write(c));
      WritesAppend(before + [Write(c)], SAdd(setKey, c.key));
      assert front + [c] == cmds;
    }
  }

  lemma WritesAppend<V>(trx: seq<TrxCommand<V>>, t: TrxCommand<V>)
    ensures Writes(trx + [t]) == if t.Write? then Writes(trx) + [t.c] else Writes(trx)
  {
    assert (trx + [t])[..|trx|] == trx;
  }

  /** The command a transaction's h-th place belongs to. */
  function CommandIndex(useSets: bool, h: nat): nat { if useSets then h / 2 else h }

  /** Its keys are those of the commands and, behind each with `useSets`, the tracking set's. */
  lemma {:induction false} TrxKeys<V>(cmds: seq<Command<V>>, useSets: bool, setKey: string, h: nat)
    requires h < |Trx(cmds, useSets, setKey)|
    ensures CommandIndex(useSets, h) < |cmds|
    ensures KeyOf(Trx(cmds, useSets, setKey)[h])
         == if useSets && h % 2 == 1 then setKey else cmds[CommandIndex(useSets, h)].key
  {
    if |cmds| > 1 { TrxAt(cmds[..|cmds| - 1], useSets, setKey, 0); }
    if h < |Trx(cmds[..|cmds| - 1], useSets, setKey)| { TrxKeys(cmds[..|cmds| - 1], useSets, setKey, h); }
  }

  /** With `useSets` it tracks the key of every command. */
  lemma {:induction false} TrxMembers<V>(cmds: seq<Command<V>>, useSets: bool, setKey: string)
    ensures Members(Trx(cmds, useSets, setKey)) == set c | useSets && c in Keys(cmds) :: (setKey, c)
  {
    if cmds != [] {
      var front := cmds[..|cmds| - 1];
      TrxMembers(front, useSets, setKey);
      var trx := Trx(cmds, useSets, setKey);
      var written := Trx(front, useSets, setKey) + [Write(cmds[|cmds| - 1])];
      assert written[..|written| - 1] == Trx(front, useSets, setKey);
      assert Members(written) == Members(Trx(front, useSets, setKey));
      if useSets { assert trx[..|trx| - 1] == written; }
    }
  }

  function Keys<V>(cmds: seq<Command<V>>): (r: set<string>)
    ensures forall j :: 0 <= j < |cmds| ==> cmds[j].key in r
    ensures forall k :: k in r ==> exists j :: 0 <= j < |cmds| && cmds[j].key == k
  {
    if cmds == [] then {}
    else
      var front := Keys(cmds[..|cmds| - 1]);
      assert forall k :: k in front ==> exists j :: 0 <= j < |cmds| - 1 && cmds[..|cmds| - 1][j].key == k == cmds[j].key;
      front + {cmds[|cmds| - 1].key}
  }

  class ValkeyServer<V> {
    const connection: RedisServer<V>
    /** The members of the tracking sets, each with its set's key. */
    var tracked: set<(string, string)>

    constructor (connection: RedisServer<V>)
      ensures this.connection == connection && tracked == {}
    {
      this.connection := connection;
      tracked := {};
    }

    ghost predicate CrossSlot(trx: seq<TrxCommand<V>>) {
      connection.clustered &&
      exists i, j :: 0 <= i < j < |trx| && connection.slotOf(KeyOf(trx[i])) != connection.slotOf(KeyOf(trx[j]))
    }

    /** `multi().exec()`; `None` is its rejection. */
    method Exec(trx: seq<TrxCommand<V>>) returns (r: Option<seq<TrxReply>>)
      modifies this, connection
      ensures CrossSlot(trx) ==> r == None && connection.data == old(connection.data) && tracked == old(tracked)
      ensures !CrossSlot(trx) ==>
                && r.Some? && |r.value| == |trx| && (forall i :: 0 <= i < |trx| ==> (r.value[i] == Ok <==> trx[i].Write?))
                && connection.data == State(old(connection.data), Writes(trx)) && tracked == old(tracked) + Members(trx)
    {
      var i := 1;
      while connection.clustered && i < |trx|
        invariant connection.clustered && |trx| > 0 ==> 1 <= i <= |trx|
        invariant connection.clustered && |trx| > 0 ==>
          forall j :: 0 <= j < i ==> connection.slotOf(KeyOf(trx[j])) == connection.slotOf(KeyOf(trx[0]))
      {
        if connection.slotOf(KeyOf(trx[i])) != connection.slotOf(KeyOf(trx[0])) { return None; }
        i := i + 1;
      }
      r := Some(seq(|trx|, j requires 0 <= j < |trx| => if trx[j].Write? then Ok else Added));
      connection.data := State(connection.data, Writes(trx));
      tracked := tracked + Members(trx);
    }
  }

  class KeyvValkey<V> {
    const server: ValkeyServer<V>
    const namespace: string
    const useSets: bool

    constructor (server: ValkeyServer<V>, namespace: string, useSets: bool)
      ensures this.server == server && this.namespace == namespace && this.useSets == useSets
    {
      this.server := server;
      this.namespace := namespace;
      this.useSets := useSets;
    }

    function GetKeyPrefix(): string {
      if useSets then (if namespace != "" then "sets:" + namespace else "sets")
      else if namespace != "" then "namespace:" + namespace else ""
    }

    function GetKeyName(key: string): string {
      if GetKeyPrefix() != "" then GetKeyPrefix() + ":" + key else key
    }

    function GetSetKey(): string { if namespace != "" then "sets:" + namespace else "sets" }

    function SlotAt(k: string): nat { if server.connection.clustered then server.connection.slotOf(k) else 0 }

    function SlotOf(): string -> nat { (k: string) => SlotAt(k) }

    /** Whether a slot's transaction is accepted: on a cluster with `useSets`, only the tracking set's slot. */
    predicate SlotAccepted(slot: nat) {
      server.connection.clustered && useSets ==> slot == SlotAt(GetSetKey())
    }

    predicate Accepts(k: string) { SlotAccepted(SlotAt(k)) }

    /** The entries to write, with their positions in the input. */
    function Resolve(entries: seq<Entry<V>>): seq<(Command<V>, nat)> {
      if entries == [] then []
      else
        var front, e := Resolve(entries[..|entries| - 1]), entries[|entries| - 1];
        if e.value == None then front else front + [(SetCommand(e), |entries| - 1)]
    }

    function SetCommand(e: Entry<V>): Command<V>
      requires e.value.Some?
    {
      Set(GetKeyName(e.key), Item(e.value.value, e.expires))
    }

    ghost predicate Resolves(entries: seq<Entry<V>>, r: (Command<V>, nat)) {
      r.1 < |entries| && entries[r.1].value.Some? && r.0 == SetCommand(entries[r.1])
    }

    lemma {:induction false} ResolveAt(entries: seq<Entry<V>>)
      ensures forall j :: 0 <= j < |Resolve(entries)| ==> Resolves(entries, Resolve(entries)[j])
      ensures forall i :: 0 <= i < |entries| && entries[i].value.Some? ==>
                exists j :: 0 <= j < |Resolve(entries)| && Resolve(entries)[j].1 == i
    {
      if entries != [] {
        var front, last := entries[..|entries| - 1], |entries| - 1;
        ResolveAt(front);
        forall i | 0 <= i < |entries| && entries[i].value.Some?
          ensures exists j :: 0 <= j < |Resolve(entries)| && Resolve(entries)[j].1 == i
        {
          if i < last {
            assert front[i].value.Some?;
            var j :| 0 <= j < |Resolve(front)| && Resolve(front)[j].1 == i;
            assert Resolve(entries)[j].1 == i;
          } else {
            assert Resolve(entries)[|Resolve(front)|].1 == i;
          }
        }
      }
    }

    /** The original indices of a group's entries. */
    function Positions(resolved: seq<(Command<V>, nat)>, group: seq<(Command<V>, nat)>): (r: seq<nat>)
      requires forall j :: 0 <= j < |group| ==> group[j].1 < |resolved|
      ensures |r| == |group| && forall j :: 0 <= j < |r| ==> r[j] == resolved[group[j].1].1
    {
      seq(|group|, j requires 0 <= j < |group| => resolved[group[j].1].1)
    }

    predicate InSlots(entries: seq<Entry<V>>, i: nat, slots: set<nat>) {
      i < |entries| && entries[i].value.Some? && SlotAt(GetKeyName(entries[i].key)) in slots
    }

    function KeysIn(entries: seq<Entry<V>>, slots: set<nat>): set<string> {
      set i | 0 <= i < |entries| && InSlots(entries, i, slots) :: GetKeyName(entries[i].key)
    }

    function Group(entries: seq<Entry<V>>, slot: nat): seq<(Command<V>, nat)> {
      Share(Commands(Resolve(entries)), SlotOf(), slot)
    }

    /** A slot's group is exactly the slot's entries with a defined value. */
    lemma GroupPositions(entries: seq<Entry<V>>, slot: nat)
      ensures forall j :: 0 <= j < |Group(entries, slot)| ==> Group(entries, slot)[j].1 < |Resolve(entries)|
      ensures forall i :: i in Positions(Resolve(entries), Group(entries, slot)) <==> InSlots(entries, i, {slot})
    {
      var resolved, group := Resolve(entries), Group(entries, slot);
      forall j | 0 <= j < |group| ensures group[j].1 < |resolved| && InSlots(entries, resolved[group[j].1].1, {slot}) {
        GroupMember(entries, slot, j);
      }
      forall i: nat | InSlots(entries, i, {slot}) ensures i in Positions(resolved, group) {
        var j := InGroup(entries, slot, i);
        assert Positions(resolved, group)[j] == i;
      }
    }

    lemma GroupKeys(entries: seq<Entry<V>>, slot: nat)
      ensures Keys(Commands(Group(entries, slot))) == KeysIn(entries, {slot})
    {
      var resolved, group := Resolve(entries), Group(entries, slot);
      forall k | k in Keys(Commands(group)) ensures k in KeysIn(entries, {slot}) {
        var j :| 0 <= j < |group| && group[j].0.key == k;
        GroupMember(entries, slot, j);
      }
      forall i: nat | InSlots(entries, i, {slot}) ensures GetKeyName(entries[i].key) in Keys(Commands(group)) {
        var j := InGroup(entries, slot, i);
        assert Commands(group)[j].key == GetKeyName(entries[i].key);
      }
    }

    lemma GroupMember(entries: seq<Entry<V>>, slot: nat, j: nat)
      requires j < |Group(entries, slot)|
      ensures var (c, r) := Group(entries, slot)[j];
              r < |Resolve(entries)| && InSlots(entries, Resolve(entries)[r].1, {slot})
              && c.key == GetKeyName(entries[Resolve(entries)[r].1].key)
    {
      ShareAt(Commands(Resolve(entries)), SlotOf(), slot, j);
      ResolveAt(entries);
      assert Resolves(entries, Resolve(entries)[Group(entries, slot)[j].1]);
    }

    lemma InGroup(entries: seq<Entry<V>>, slot: nat, i: nat) returns (j: nat)
      requires InSlots(entries, i, {slot})
      ensures j < |Group(entries, slot)| && Group(entries, slot)[j].1 < |Resolve(entries)|
      ensures Resolve(entries)[Group(entries, slot)[j].1].1 == i
      ensures Group(entries, slot)[j].0.key == GetKeyName(entries[i].key)
    {
      ResolveAt(entries);
      var resolved := Resolve(entries);
      var r :| 0 <= r < |resolved| && resolved[r].1 == i;
      assert Resolves(entries, resolved[r]);
      InShare(Commands(resolved), SlotOf(), r);
      j :| 0 <= j < |Group(entries, slot)| && Group(entries, slot)[j] == (Commands(resolved)[r], r);
    }

    /** A group's transaction is rejected exactly when its slot is not accepted. */
    lemma {:induction false} CrossingSlot(cmds: seq<Command<V>>, slot: nat)
      requires |cmds| > 0 && forall j :: 0 <= j < |cmds| ==> SlotAt(cmds[j].key) == slot
      ensures server.CrossSlot(Trx(cmds, useSets, GetSetKey())) <==> !SlotAccepted(slot)
    {
      var trx := Trx(cmds, useSets, GetSetKey());
      TrxAt(cmds, useSets, GetSetKey(), 0);
      forall h | 0 <= h < |trx|
        ensures SlotAt(KeyOf(trx[h])) == if useSets && h % 2 == 1 then SlotAt(GetSetKey()) else slot
      {
        TrxKeys(cmds, useSets, GetSetKey(), h);
      }
      if !SlotAccepted(slot) { assert SlotAt(KeyOf(trx[0])) != SlotAt(KeyOf(trx[1])); }
    }

    /** `results[group[j].originalIndex] = execResults[j * step]` is "OK". */
    method ScatterFlags(flags: array<bool>, positions: seq<nat>, replies: seq<TrxReply>)
      requires forall j :: 0 <= j < |positions| ==> positions[j] < flags.Length
      requires forall j :: 0 <= j < |positions| ==>
                 ReplyIndex(useSets, j) < |replies| && replies[ReplyIndex(useSets, j)] == Ok
      modifies flags
      ensures forall i :: 0 <= i < flags.Length ==> (flags[i] <==> old(flags[i]) || i in positions)
    {
      for j := 0 to |positions|
        invariant forall i :: 0 <= i < flags.Length ==> (flags[i] <==> old(flags[i]) || i in positions[..j])
      {
        flags[positions[j]] := replies[ReplyIndex(useSets, j)] == Ok;
      }
    }

    function Tracked(before: set<(string, string)>, keys: set<string>): set<(string, string)> {
      before + set k | useSets && k in keys :: (GetSetKey(), k)
    }

    /** What has been done once the slots in `done` have been executed. */
    ghost predicate Settled(flags: seq<bool>, before: Store<V>, now: Store<V>,
                            trackedBefore: set<(string, string)>, tracked: set<(string, string)>,
                            entries: seq<Entry<V>>, done: set<nat>)
    {
      && Executed(before, now, Commands(Resolve(entries)), SlotOf(), done)
      && tracked == Tracked(trackedBefore, KeysIn(entries, done))
      && |flags| == |entries|
      && forall i :: 0 <= i < |entries| ==> (flags[i] <==> entries[i].value.None? || InSlots(entries, i, done))
    }

    lemma SettledOneMore(flags: seq<bool>, before: Store<V>, now: Store<V>, trackedBefore: set<(string, string)>,
                         tracked: set<(string, string)>, entries: seq<Entry<V>>, done: set<nat>, slot: nat, r: seq<bool>)
      requires Settled(flags, before, now, trackedBefore, tracked, entries, done) && slot !in done
      requires |r| == |flags| && forall i :: 0 <= i < |r| ==> (r[i] <==> flags[i] || InSlots(entries, i, {slot}))
      ensures var cmds := Commands(Group(entries, slot));
              Settled(r, before, State(now, cmds), trackedBefore, tracked + Members(Trx(cmds, useSets, GetSetKey())),
                      entries, done + {slot})
    {
      ExecutedOneMore(before, now, Commands(Resolve(entries)), SlotOf(), done, slot);
      TrxMembers(Commands(Group(entries, slot)), useSets, GetSetKey());
      GroupKeys(entries, slot);
      assert KeysIn(entries, done + {slot}) == KeysIn(entries, done) + KeysIn(entries, {slot});
    }

    /** A group's transaction: when it is accepted, the reply to its j-th write is at `j * step`. */
    method ExecGroup(cmds: seq<Command<V>>, ghost slot: nat) returns (r: Option<seq<TrxReply>>)
      requires forall j :: 0 <= j < |cmds| ==> SlotAt(cmds[j].key) == slot
      modifies server, server.connection
      ensures r.Some? <==> cmds == [] || SlotAccepted(slot)
      ensures r.Some? ==> forall j :: 0 <= j < |cmds| ==>
                ReplyIndex(useSets, j) < |r.value| && r.value[ReplyIndex(useSets, j)] == Ok
      ensures server.connection.data == if r.Some? then State(old(server.connection.data), cmds) else old(server.connection.data)
      ensures server.tracked == old(server.tracked) + if r.Some? then Members(Trx(cmds, useSets, GetSetKey())) else {}
    {
      TrxWrites(cmds, useSets, GetSetKey());
      if |cmds| > 0 { CrossingSlot(cmds, slot); }
      r := server.Exec(Trx(cmds, useSets, GetSetKey()));
      forall j | 0 <= j < |cmds|
        ensures ReplyIndex(useSets, j) < |Trx(cmds, useSets, GetSetKey())|
        ensures Trx(cmds, useSets, GetSetKey())[ReplyIndex(useSets, j)].Write?
      {
        TrxAt(cmds, useSets, GetSetKey(), j);
      }
    }

    /** One group: its transaction and, when that is accepted, its flags. */
    method RunGroup(ghost entries: seq<Entry<V>>, resolved: seq<(Command<V>, nat)>, slot: nat,
                    group: seq<(Command<V>, nat)>, flags: array<bool>,
                    ghost before: Store<V>, ghost trackedBefore: set<(string, string)>, ghost done: set<nat>)
      returns (accepted: bool)
      requires resolved == Resolve(entries) && group == Group(entries, slot) && slot !in done
      requires Settled(flags[..], before, server.connection.data, trackedBefore, server.tracked, entries, done)
      modifies server, server.connection, flags
      ensures accepted <==> group == [] || SlotAccepted(slot)
      ensures Settled(flags[..], before, server.connection.data, trackedBefore, server.tracked, entries,
                      if accepted then done + {slot} else done)
    {
      OneSlot(Commands(resolved), SlotOf(), slot);
      GroupPositions(entries, slot);
      assert forall j :: 0 <= j < |Commands(group)| ==> SlotAt(Commands(group)[j].key) == slot;
      ghost var flagsBefore, now, tracked := flags[..], server.connection.data, server.tracked;
      var execResults := ExecGroup(Commands(group), slot);
      accepted := execResults.Some?;
      if accepted {
        var positions := Positions(resolved, group);
        forall j | 0 <= j < |positions| ensures positions[j] < flags.Length { assert positions[j] in positions; }
        assert |positions| == |Commands(group)|;
        ScatterFlags(flags, positions, execResults.value);
        SettledOneMore(flagsBefore, before, now, trackedBefore, tracked, entries, done, slot, flags[..]);
      }
    }

    /** `resolvedEntries` with the flags of the skipped entries set. */
    method ResolveEntries(entries: seq<Entry<V>>, flags: array<bool>) returns (resolved: seq<(Command<V>, nat)>)
      requires flags.Length == |entries| && forall i :: 0 <= i < |entries| ==> !flags[i]
      modifies flags
      ensures resolved == Resolve(entries)
      ensures forall i :: 0 <= i < |entries| ==> (flags[i] <==> entries[i].value.None?)
    {
      resolved := [];
      for i := 0 to |entries|
        invariant resolved == Resolve(entries[..i])
        invariant forall j :: 0 <= j < i ==> (flags[j] <==> entries[j].value.None?)
        invariant forall j :: i <= j < |entries| ==> !flags[j]
      {
        assert entries[..i + 1][..i] == entries[..i];
        if entries[i].value == None {
          flags[i] := true;
        } else {
          resolved := resolved + [(SetCommand(entries[i]), i)];
        }
      }
      assert entries[..|entries|] == entries;
    }

    // ----- What is stored where, spelled out -----

    /** The name a key is stored under. */
    ghost function NameIs(key: string): string {
      if useSets && namespace == "" then "sets:" + key
      else if useSets then "sets:" + namespace + ":" + key
      else if namespace == "" then key
      else "namespace:" + namespace + ":" + key
    }

    /** On a cluster with tracking only the names in the slot of the tracking set can be written. */
    ghost predicate AcceptedIs(k: string) {
      server.connection.clustered && useSets ==>
        server.connection.slotOf(k) == server.connection.slotOf(if namespace == "" then "sets" else "sets:" + namespace)
    }

    lemma NamesAre()
      ensures forall key :: GetKeyName(key) == NameIs(key)
      ensures forall k :: Accepts(k) <==> AcceptedIs(k)
    {
      forall key ensures GetKeyName(key) == NameIs(key) {
        assert "sets" + ":" + key == "sets:" + key;
        assert "sets:" + namespace + ":" + key == ("sets:" + namespace) + ":" + key;
      }
    }

    lemma NamesDiffer(a: string, b: string)
      requires GetKeyName(a) == GetKeyName(b)
      ensures a == b
    {
      if GetKeyPrefix() != "" {
        var prefix := GetKeyPrefix() + ":";
        assert (prefix + a)[|prefix|..] == a && (prefix + b)[|prefix|..] == b;
      }
    }

    lemma {:induction false} LastEntryWins(cell: Option<Item<V>>, entries: seq<Entry<V>>, i: nat)
      requires i < |entries| && entries[i].value.Some?
      requires forall j :: i < j < |entries| && entries[j].value.Some? ==> entries[j].key != entries[i].key
      ensures CellAfter(cell, Commands(Resolve(entries)), GetKeyName(entries[i].key))
           == Some(Item(entries[i].value.value, entries[i].expires))
    {
      var front, e := entries[..|entries| - 1], entries[|entries| - 1];
      CommandsMore(front, e, |front|);
      if i < |front| {
        LastEntryWins(cell, front, i);
        if e.value.Some? && GetKeyName(e.key) == GetKeyName(entries[i].key) { NamesDiffer(e.key, entries[i].key); }
      }
    }

    lemma CommandsMore(front: seq<Entry<V>>, e: Entry<V>, n: nat)
      requires n == |front|
      ensures Commands(Resolve(front + [e]))
           == if e.value.Some? then Commands(Resolve(front)) + [SetCommand(e)] else Commands(Resolve(front))
      ensures e.value.Some? ==>
                (Commands(Resolve(front)) + [SetCommand(e)])[..|Commands(Resolve(front))|] == Commands(Resolve(front))
      ensures forall entries: seq<Entry<V>> :: |entries| == n + 1 && entries[..n] == front && entries[n] == e ==> entries == front + [e]
    {
      assert (front + [e])[..|front|] == front;
    }

    lemma StoredAre(before: Store<V>, entries: seq<Entry<V>>, after: Store<V>)
      requires forall k :: Lookup(after, k) ==
                 if Accepts(k) then CellAfter(Lookup(before, k), Commands(Resolve(entries)), k) else Lookup(before, k)
      ensures forall i :: 0 <= i < |entries| && entries[i].value.Some?
                          && (forall j :: i < j < |entries| && entries[j].value.Some? ==> entries[j].key != entries[i].key) ==>
                var k := NameIs(entries[i].key);
                Lookup(after, k) == if AcceptedIs(k) then Some(Item(entries[i].value.value, entries[i].expires))
                                    else Lookup(before, k)
      ensures forall k :: (forall i :: 0 <= i < |entries| && entries[i].value.Some? ==> k != NameIs(entries[i].key)) ==>
                Lookup(after, k) == Lookup(before, k)
    {
      hide Resolve, CellAfter, Commands, GetKeyName, NameIs, AcceptedIs, Accepts;
      NamesAre();
      forall i | 0 <= i < |entries| && entries[i].value.Some?
                 && (forall j :: i < j < |entries| && entries[j].value.Some? ==> entries[j].key != entries[i].key)
        ensures Lookup(after, GetKeyName(entries[i].key))
             == if Accepts(GetKeyName(entries[i].key)) then Some(Item(entries[i].value.value, entries[i].expires))
                else Lookup(before, GetKeyName(entries[i].key))
      {
        LastEntryWins(Lookup(before, GetKeyName(entries[i].key)), entries, i);
      }
      forall k | forall i :: 0 <= i < |entries| && entries[i].value.Some? ==> k != GetKeyName(entries[i].key)
        ensures Lookup(after, k) == Lookup(before, k)
      {
        UnnamedStays(Lookup(before, k), entries, k);
      }
    }

    lemma {:induction false} UnnamedStays(cell: Option<Item<V>>, entries: seq<Entry<V>>, k: string)
      requires forall i :: 0 <= i < |entries| && entries[i].value.Some? ==> k != GetKeyName(entries[i].key)
      ensures CellAfter(cell, Commands(Resolve(entries)), k) == cell
    {
      if entries != [] {
        var front, e := entries[..|entries| - 1], entries[|entries| - 1];
        CommandsMore(front, e, |front|);
        UnnamedStays(cell, front, k);
      }
    }

    /** Once all transactions have settled: an entry is reported as stored exactly when its value is undefined or
        its name is accepted; the last defined entry of a key is what is held under an accepted name, with its
        deadline; tracked are exactly the accepted names in addition; and nothing else changes. */
    method SetMany(entries: seq<Entry<V>>) returns (results: seq<bool>)
      modifies server, server.connection
      ensures |results| == |entries|
      ensures forall i :: 0 <= i < |entries| ==>
                (results[i] <==> entries[i].value.None? || AcceptedIs(NameIs(entries[i].key)))
      ensures forall i :: 0 <= i < |entries| && entries[i].value.Some?
                          && (forall j :: i < j < |entries| && entries[j].value.Some? ==> entries[j].key != entries[i].key) ==>
                var k := NameIs(entries[i].key);
                Lookup(server.connection.data, k) == if AcceptedIs(k) then Some(Item(entries[i].value.value, entries[i].expires))
                                    else Lookup(old(server.connection.data), k)
      ensures forall k :: (forall i :: 0 <= i < |entries| && entries[i].value.Some? ==> k != NameIs(entries[i].key)) ==>
                Lookup(server.connection.data, k) == Lookup(old(server.connection.data), k)
      ensures forall s, k :: (s, k) in server.tracked <==>
                || (s, k) in old(server.tracked)
                || (useSets && s == (if namespace == "" then "sets" else "sets:" + namespace) && AcceptedIs(k)
                    && exists i :: 0 <= i < |entries| && entries[i].value.Some? && NameIs(entries[i].key) == k)
    {
      hide Resolve, CellAfter, Commands, GetKeyName, NameIs, AcceptedIs, Accepts, AcceptedKeys, Tracked;
      ghost var before, trackedBefore := server.connection.data, server.tracked;
      NamesAre();
      results := StoreAll(entries);
      StoredAre(before, entries, server.connection.data);
      TrackedAre(trackedBefore, entries);
    }

    lemma TrackedAre(before: set<(string, string)>, entries: seq<Entry<V>>)
      ensures forall s, k :: (s, k) in Tracked(before, AcceptedKeys(entries)) <==>
                || (s, k) in before
                || (useSets && s == (if namespace == "" then "sets" else "sets:" + namespace) && AcceptedIs(k)
                    && exists i :: 0 <= i < |entries| && entries[i].value.Some? && NameIs(entries[i].key) == k)
    {
      hide GetKeyName, NameIs, AcceptedIs, Accepts;
      NamesAre();
      var accepted := AcceptedKeys(entries);
      forall k ensures k in accepted <==>
          AcceptedIs(k) && exists i :: 0 <= i < |entries| && entries[i].value.Some? && NameIs(entries[i].key) == k
      {
        if i :| 0 <= i < |entries| && entries[i].value.Some? && NameIs(entries[i].key) == k {
          assert GetKeyName(entries[i].key) == k;
        }
      }
      assert forall s, k :: (s, k) in Tracked(before, accepted) <==>
        (s, k) in before || (useSets && s == GetSetKey() && k in accepted);
    }

    /** What was written and accepted is read back. */
    method WriteThenRead(entries: seq<Entry<V>>, i: nat) returns (values: seq<Option<V>>, present: seq<bool>)
      requires i < |entries| && entries[i].value.Some? && AcceptedIs(NameIs(entries[i].key))
      requires forall j :: i < j < |entries| && entries[j].value.Some? ==> entries[j].key != entries[i].key
      modifies server, server.connection
      ensures values == [entries[i].value] && present == [true]
    {
      hide NameIs, AcceptedIs, GetKeyName;
      NamesAre();
      var _ := SetMany(entries);
      assert Lookup(server.connection.data, NameIs(entries[i].key)).Some?;
      var keys := [entries[i].key];
      values := GetMany(keys);
      present := HasMany(keys);
      assert keys[0] == entries[i].key;
    }

    /** Once all transactions have settled: an entry is reported as stored exactly when its value is
        undefined or its key is accepted, the accepted entries are stored and tracked as writing them in
        input order would, and nothing else changes. */
    method StoreAll(entries: seq<Entry<V>>) returns (results: seq<bool>)
      modifies server, server.connection
      ensures |results| == |entries|
      ensures forall i :: 0 <= i < |entries| ==>
                (results[i] <==> entries[i].value.None? || Accepts(GetKeyName(entries[i].key)))
      ensures forall k :: Lookup(server.connection.data, k) ==
                if Accepts(k) then CellAfter(Lookup(old(server.connection.data), k), Commands(Resolve(entries)), k)
                else Lookup(old(server.connection.data), k)
      ensures server.tracked == Tracked(old(server.tracked), AcceptedKeys(entries))
    {
      var flags := new bool[|entries|](_ => false);
      var resolved := ResolveEntries(entries, flags);
      var cmds := Commands(resolved);
      var slotMap := GroupBySlot(cmds, SlotOf());
      var todo := slotMap.Keys;
      ghost var before, trackedBefore, done := server.connection.data, server.tracked, {};
      ExecutedNothing(before, cmds, SlotOf());
      assert server.tracked == Tracked(trackedBefore, KeysIn(entries, {}));
      while todo != {}
        invariant todo <= slotMap.Keys && todo !! done && done <= slotMap.Keys
        invariant forall slot :: slot in slotMap && slot !in todo ==>
          (slot in done <==> Group(entries, slot) == [] || SlotAccepted(slot))
        invariant Settled(flags[..], before, server.connection.data, trackedBefore, server.tracked, entries, done)
        decreases todo
      {
        var slot :| slot in todo;
        todo := todo - {slot};
        var accepted := RunGroup(entries, resolved, slot, slotMap[slot], flags, before, trackedBefore, done);
        if accepted { done := done + {slot}; }
      }
      results := flags[..];
      AllSettled(entries, done, slotMap.Keys, results, before, server.connection.data);
    }

    function AcceptedKeys(entries: seq<Entry<V>>): set<string> {
      set i | 0 <= i < |entries| && entries[i].value.Some? && Accepts(GetKeyName(entries[i].key)) :: GetKeyName(entries[i].key)
    }

    lemma AllSettled(entries: seq<Entry<V>>, done: set<nat>, slots: set<nat>, flags: seq<bool>, before: Store<V>, now: Store<V>)
      requires Executed(before, now, Commands(Resolve(entries)), SlotOf(), done)
      requires done <= slots && forall slot :: slot in slots ==> (slot in done <==> Group(entries, slot) == [] || SlotAccepted(slot))
      requires forall j :: 0 <= j < |Commands(Resolve(entries))| ==> SlotAt(Commands(Resolve(entries))[j].key) in slots
      ensures forall i: nat :: InSlots(entries, i, done) <==>
                i < |entries| && entries[i].value.Some? && Accepts(GetKeyName(entries[i].key))
      ensures KeysIn(entries, done) == AcceptedKeys(entries)
      ensures forall k :: Lookup(now, k) ==
                if Accepts(k) then CellAfter(Lookup(before, k), Commands(Resolve(entries)), k) else Lookup(before, k)
    {
      var cmds := Commands(Resolve(entries));
      forall i: nat | i < |entries| && entries[i].value.Some?
        ensures SlotAt(GetKeyName(entries[i].key)) in slots && Group(entries, SlotAt(GetKeyName(entries[i].key))) != []
      {
        var slot := SlotAt(GetKeyName(entries[i].key));
        var j := InGroup(entries, slot, i);
        ShareAt(cmds, SlotOf(), slot, j);
        assert SlotAt(cmds[Group(entries, slot)[j].1].key) in slots;
      }
      forall k ensures Lookup(now, k) ==
          if Accepts(k) then CellAfter(Lookup(before, k), cmds, k) else Lookup(before, k) {
        if !(exists j :: 0 <= j < |cmds| && cmds[j].key == k) {
          Untouched(Lookup(before, k), cmds, k);
        } else {
          var j :| 0 <= j < |cmds| && cmds[j].key == k;
          InShare(cmds, SlotOf(), j);
          assert SlotAt(cmds[j].key) in slots;
        }
      }
    }

    // ----- Reads -----

    function KeyNames(keys: seq<string>): (r: seq<string>)
      ensures |r| == |keys| && forall i :: 0 <= i < |r| ==> r[i] == GetKeyName(keys[i])
    {
      seq(|keys|, i requires 0 <= i < |keys| => GetKeyName(keys[i]))
    }

    /** On a cluster one `MGET` per slot whose values are collected by key, otherwise one `MGET`. */
    method GetMany(keys: seq<string>) returns (values: seq<Option<V>>)
      modifies server.connection
      ensures server.connection.data == old(server.connection.data)
      ensures |values| == |keys|
      ensures forall i :: 0 <= i < |keys| ==>
                values[i] == match Lookup(old(server.connection.data), GetKeyName(keys[i]))
                             case Some(item) => Some(item.value)
                             case None => None
    {
      var connection, names := server.connection, KeyNames(keys);
      var cmds := connection.GetCommands(names);
      ghost var before := connection.data;
      connection.ReadsKeep(before, cmds);
      if connection.clustered {
        var resultMap := connection.RepliesByKey(cmds);
        connection.ReadsByKey(resultMap, before, cmds);
        assert forall i :: 0 <= i < |keys| ==> cmds[i].key == names[i];
        values := connection.ValuesOf(resultMap, names);
      } else {
        var reply := connection.Multi(cmds);
        forall i | 0 <= i < |keys| ensures ReplyAt(before, cmds, i) == ReplyOf(cmds[i], Lookup(before, names[i])) {
          connection.ReadReply(before, cmds, i);
        }
        values := seq(|keys|, i requires 0 <= i < |keys| => if reply.value[i].Bulk? then reply.value[i].value else None);
      }
    }

    /** Replies are collected by key on one connection too. */
    method HasMany(keys: seq<string>) returns (results: seq<bool>)
      modifies server.connection
      ensures server.connection.data == old(server.connection.data)
      ensures |results| == |keys|
      ensures forall i :: 0 <= i < |keys| ==> (results[i] <==> GetKeyName(keys[i]) in old(server.connection.data))
    {
      var connection, names := server.connection, KeyNames(keys);
      var cmds := connection.ExistsCommands(names);
      ghost var before := connection.data;
      connection.ReadsKeep(before, cmds);
      var resultMap := connection.RepliesByKey(cmds);
      connection.ReadsByKey(resultMap, before, cmds);
      assert forall i :: 0 <= i < |keys| ==> cmds[i].key == names[i];
      results := connection.Ones(resultMap, names);
    }
  }
}
